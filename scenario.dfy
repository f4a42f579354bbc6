/** A worked instance: face +z of a cloud, with one transmittance texture
    and two radiance samples of 64 x 64 texels, taken through the read loop
    and the processing loop. */
module Scenario {
  import opened Wrappers
  import opened FileName
  import opened Catalog
  import opened Plan

  const TrName: string := "cloud_+z_tr.dds"
  const UpName: string := "cloud_+z_0.00_0.00_1.00.dds"
  const SideName: string := "cloud_+z_1.00_0.00_0.00.dds"

  const Up: InputTexture := InputTexture(Captured("0.00", "0.00", "1.00"), 64, 64)
  const Side: InputTexture := InputTexture(Captured("1.00", "0.00", "0.00"), 64, 64)
  const Tr: InputTexture := InputTexture(UnitX, 64, 64)

  /** The directory: the three files, each loading as a 64 x 64 texture. */
  const Entries: seq<DirEntry> :=
    [DirEntry(TrName, Loaded(64, 64)), DirEntry(UpName, Loaded(64, 64)), DirEntry(SideName, Loaded(64, 64))]

  /** The three files as the read loop sees them once their names are
      classified (EntriesClassify). */
  const Listing: seq<Visit> :=
    [Visit(Transmittance("cloud", "+z"), Loaded(64, 64)),
     Visit(RadianceSample("cloud", "+z", "0.00", "0.00", "1.00"), Loaded(64, 64)),
     Visit(RadianceSample("cloud", "+z", "1.00", "0.00", "0.00"), Loaded(64, 64))]

  /** The catalog the listing builds: one set, face index 4. */
  const CloudSet: InputTexSet := InputTexSet(4, Some(Tr), [Up, Side])

  lemma ZeroAndOneAreNumbers()
    ensures NumberPattern("0.00") && NumberPattern("1.00")
  {
    assert IsNumberToken("0.00") && IsNumberToken("1.00");
    NumberTokenCorrect("0.00");
    NumberTokenCorrect("1.00");
  }

  /** A radiance sample of the cloud's +z face whose tokens are each 0.00 or 1.00. */
  lemma CloudSampleClassifies(name: string, x: string, y: string, z: string)
    requires x in ["0.00", "1.00"] && y in ["0.00", "1.00"] && z in ["0.00", "1.00"]
    requires name == "cloud" + "_" + "+z" + "_" + x + "_" + y + "_" + z + ".dds"
    ensures Classify(name) == RadianceSample("cloud", "+z", x, y, z)
  {
    ZeroAndOneAreNumbers();
    assert NoNewline("cloud") && IsFaceStr("+z");
    ClassifyRadianceName("cloud", "+z", x, y, z);
  }

  lemma TrNameClassifies()
    ensures Classify(TrName) == Transmittance("cloud", "+z")
  {
    assert TrName == "cloud" + "_" + "+z" + "_tr.dds";
    ClassifyTransmittanceName("cloud", "+z");
  }

  lemma UpNameClassifies()
    ensures Classify(UpName) == RadianceSample("cloud", "+z", "0.00", "0.00", "1.00")
  {
    assert UpName == "cloud" + "_" + "+z" + "_" + "0.00" + "_" + "0.00" + "_" + "1.00" + ".dds";
    CloudSampleClassifies(UpName, "0.00", "0.00", "1.00");
  }

  lemma SideNameClassifies()
    ensures Classify(SideName) == RadianceSample("cloud", "+z", "1.00", "0.00", "0.00")
  {
    assert SideName == "cloud" + "_" + "+z" + "_" + "1.00" + "_" + "0.00" + "_" + "0.00" + ".dds";
    CloudSampleClassifies(SideName, "1.00", "0.00", "0.00");
  }

  /** The transmittance file opens the set. */
  lemma TrOpensSet()
    ensures Admit(map[], Listing[0].cls, Listing[0].load)
         == Step(Added, map["cloud_+z" := InputTexSet(4, Some(Tr), [])])
  {
    assert Key("cloud", "+z") == "cloud_+z";
    assert FaceStrToUint("+z") == Some(4);
  }

  /** The up sample is appended. */
  lemma UpJoinsSet()
    ensures Admit(map["cloud_+z" := InputTexSet(4, Some(Tr), [])], Listing[1].cls, Listing[1].load)
         == Step(Added, map["cloud_+z" := InputTexSet(4, Some(Tr), [Up])])
  {
    assert Key("cloud", "+z") == "cloud_+z";
    assert FaceStrToUint("+z") == Some(4);
    assert [] + [Up] == [Up];
  }

  /** The side sample is appended after it. */
  lemma SideJoinsSet()
    ensures Admit(map["cloud_+z" := InputTexSet(4, Some(Tr), [Up])], Listing[2].cls, Listing[2].load)
         == Step(Added, map["cloud_+z" := CloudSet])
  {
    assert Key("cloud", "+z") == "cloud_+z";
    assert FaceStrToUint("+z") == Some(4);
    assert [Up] + [Side] == [Up, Side];
  }

  /** Three entries are classified one by one. */
  lemma ThreeVisits(a: DirEntry, b: DirEntry, c: DirEntry, va: Visit, vb: Visit, vc: Visit)
    requires va == Visit(Classify(a.name), a.load)
    requires vb == Visit(Classify(b.name), b.load)
    requires vc == Visit(Classify(c.name), c.load)
    ensures Visits([a, b, c]) == [va, vb, vc]
  {
    var vs := Visits([a, b, c]);
    assert vs[0] == va && vs[1] == vb && vs[2] == vc;
  }

  /** Classifying the directory's names gives the listing. */
  lemma EntriesClassify()
    ensures Visits(Entries) == Listing
  {
    TrNameClassifies();
    UpNameClassifies();
    SideNameClassifies();
    ThreeVisits(Entries[0], Entries[1], Entries[2], Listing[0], Listing[1], Listing[2]);
  }

  /** Reading the classified listing builds the single cloud set. */
  lemma ClassifiedListingBuildsCloudSet()
    ensures ReadAll(map[], Listing) == ReadState(map["cloud_+z" := CloudSet], false)
  {
    assert Listing[..0] == [];
    ReadAllStep(map[], Listing, 0);
    TrOpensSet();
    ReadAllStep(map[], Listing, 1);
    UpJoinsSet();
    ReadAllStep(map[], Listing, 2);
    SideJoinsSet();
    assert Listing[..3] == Listing;
  }

  /** Reading the directory builds the single cloud set. */
  lemma ListingBuildsCloudSet()
    ensures ReadAll(map[], Visits(Entries)) == ReadState(map["cloud_+z" := CloudSet], false)
  {
    EntriesClassify();
    ClassifiedListingBuildsCloudSet();
  }

  /** Over a catalog of one key, the processing loop issues that set's plan. */
  lemma CloudPlan(validate: bool)
    ensures VerdictOf(CloudSet) == Accepted
    ensures PlanAll(["cloud_+z"], map["cloud_+z" := CloudSet], validate, None).commands
         == SetPlan("cloud_+z", CloudSet, validate, None)
  {
    var order: seq<string> := ["cloud_+z"];
    assert order[..0] == [];
  }

  /** The set is baked twice, the side sample last, with 8 x 8 x 1 groups. */
  lemma CloudSetBakes(validate: bool)
    ensures BakesIn(PlanAll(["cloud_+z"], map["cloud_+z" := CloudSet], validate, None).commands)
         == [Bake(Groups(8, 8, 1), BakeCB(Up.lightDirection, 2, 4), Up, Tr),
             Bake(Groups(8, 8, 1), BakeCB(Side.lightDirection, 2, 4), Side, Tr)]
  {
    CloudPlan(validate);
    ProcessedSetBakes("cloud_+z", CloudSet, validate, None);
    var bakes := BakesIn(SetPlan("cloud_+z", CloudSet, validate, None));
    assert bakes == [bakes[0], bakes[1]];
  }

  /** The output directory receives the three SH files; with validation on
      the reconstruction is named after the side sample's direction. */
  lemma CloudSetFiles(validate: bool)
    ensures FilesWritten(PlanAll(["cloud_+z"], map["cloud_+z" := CloudSet], validate, None).commands)
         == [ShFile("cloud_+z_sh0.dds"), ShFile("cloud_+z_sh1.dds"), ShFile("cloud_+z_sh2.dds")]
            + if validate then [ReconstructionFile("cloud_+z", Side.lightDirection)] else []
  {
    CloudPlan(validate);
    SetPlanWrites("cloud_+z", CloudSet, validate, None);
    assert ShFileName("cloud_+z", 0) == "cloud_+z_sh0.dds";
    assert ShFileName("cloud_+z", 1) == "cloud_+z_sh1.dds";
    assert ShFileName("cloud_+z", 2) == "cloud_+z_sh2.dds";
  }

  /** A radiance sample of another size makes the whole set skipped. */
  lemma SmallerSampleSkipsSet()
    ensures VerdictOf(InputTexSet(4, Some(Tr), [Up, InputTexture(Side.lightDirection, 32, 32)])) == SizeMismatch
  {
    var colors := [Up, InputTexture(Side.lightDirection, 32, 32)];
    assert colors[1].width != Tr.width;
  }

  /** A loadable `-z` file ends the run. */
  lemma MinusZEndsRun()
    ensures ReadAll(map[], Visits([DirEntry("cloud_-z_tr.dds", Loaded(64, 64))])).terminated
  {
    var name := "cloud_-z_tr.dds";
    assert name == "cloud" + "_" + "-z" + "_tr.dds";
    ClassifyTransmittanceName("cloud", "-z");
    var vs := Visits([DirEntry(name, Loaded(64, 64))]);
    assert vs[..0] == [];
  }
}

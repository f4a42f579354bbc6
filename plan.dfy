/** What the processing loop of main (src/main.cpp) does for each catalog
    entry, as a list of recorded commands instead of Direct3D calls: whether
    the set is skipped, the bake dispatches with their thread-group counts
    and constant-buffer contents, the files written, and the optional
    validation pass. */
module Plan {
  import opened Wrappers
  import opened Catalog

  // ---------------------------------------------------------------------------
  // Sizes

  /** sizeof(BakeCBData): XMFLOAT3 light_dir, float weight, uint32_t face, XMFLOAT3 _pad. */
  const BakeCBDataSize: nat := 3 * 4 + 4 + 4 + 3 * 4

  /** `x & ~(64 - 1)` on an unsigned value: the six low bits cleared. */
  function ClearLowSixBits(x: nat): nat {
    x / 64 * 64
  }

  /** The constant buffer's ByteWidth, `(size + (64 - 1)) & ~(64 - 1)`: a
      multiple of 64 that is at least `size` and less than 64 above it. */
  function ByteWidth(size: nat): (r: nat)
    ensures r % 64 == 0 && size <= r < size + 64
  {
    ClearLowSixBits(size + (64 - 1))
  }

  /** No smaller multiple of 64 holds `size` bytes. */
  lemma ByteWidthIsLeast(size: nat, w: nat)
    requires w % 64 == 0 && size <= w
    ensures ByteWidth(size) <= w
  {
    var r := ByteWidth(size);
    assert r == r / 64 * 64 && w == w / 64 * 64;
    assert r / 64 * 64 < w / 64 * 64 + 64;
    assert r / 64 < w / 64 + 1;
  }

  /** The static_assert on BakeCBData holds, and its buffer takes 64 bytes. */
  lemma BakeCBDataByteWidth()
    ensures BakeCBDataSize % 16 == 0 && ByteWidth(BakeCBDataSize) == 64
  {
  }

  /** How many bytes a whole-buffer upload reads past the end of its
      source. A constant buffer is only ever updated whole: `UpdateSubresource`
      with a null box copies `bufferWidth` bytes from `&cb_data`. */
  function UploadOverrun(bufferWidth: nat, structSize: nat): (r: nat)
    ensures r == 0 <==> bufferWidth <= structSize
    ensures r > 0 ==> structSize + r == bufferWidth
  {
    if bufferWidth <= structSize then 0 else bufferWidth - structSize
  }

  /** As written, every upload of the 32-byte cb_data into the 64-byte
      constant buffer reads 32 bytes beyond the struct. */
  lemma UploadReadsPastCBData()
    ensures UploadOverrun(ByteWidth(BakeCBDataSize), BakeCBDataSize) == 32
  {
  }

  /** The width a constant buffer needs: `size` rounded up to the 16-byte
      granularity of constant buffers. */
  function CBufferByteWidth(size: nat): (r: nat)
    ensures r % 16 == 0 && size <= r < size + 16
  {
    (size + 15) / 16 * 16
  }

  /** With that width, a struct whose size is a multiple of 16 (the
      static_assert on BakeCBData) fills the buffer exactly and an upload
      reads nothing beyond it. */
  lemma CorrectedUploadFits(size: nat)
    requires size % 16 == 0
    ensures CBufferByteWidth(size) == size
    ensures UploadOverrun(CBufferByteWidth(size), size) == 0
  {
  }

  /** `(n + 7) / 8` in uint32_t: the least g with 8 * g >= n, as long as
      n + 7 does not wrap around. */
  function GroupCount(n: U32): (g: U32)
    ensures n + 7 < 0x1_0000_0000 ==> n <= 8 * g && (g == 0 || 8 * (g - 1) < n)
  {
    ((n + 7) % 0x1_0000_0000) / 8
  }

  lemma GroupCountIsLeast(n: U32, g: nat)
    requires n + 7 < 0x1_0000_0000 && n <= 8 * g
    ensures GroupCount(n) <= g
  {
  }

  /** In the top seven values of the uint32_t range the sum wraps and no
      group is dispatched. */
  lemma GroupCountWraps(n: U32)
    requires n + 7 >= 0x1_0000_0000
    ensures GroupCount(n) == 0
  {
  }

  // ---------------------------------------------------------------------------
  // Commands

  datatype Groups = Groups(x: U32, y: U32, z: U32)

  /** The thread-group counts of both dispatches of a set. */
  function GroupsFor(width: U32, height: U32): Groups {
    Groups(GroupCount(width), GroupCount(height), 1)
  }

  /** BakeCBData; its weight is `1 / sampleCount` as a float. */
  datatype BakeCB = BakeCB(lightDir: LightDir, sampleCount: nat, face: U32)

  datatype Command =
    /** The three R32G32B32A32_FLOAT accumulators, created and cleared to zero. */
    | InitAccumulators(width: U32, height: U32)
    /** One bake dispatch with the constant buffer just uploaded. */
    | Bake(groups: Groups, cb: BakeCB, sample: InputTexture, transmittance: InputTexture)
    /** A BC6H-compressed accumulator saved in the output directory. */
    | WriteSh(fileName: string)
    /** The validation dispatch over an R32_FLOAT texture; `buffer` is what the
        constant buffer holds at that point (None: never uploaded). */
    | Validate(width: U32, height: U32, groups: Groups, buffer: Option<BakeCB>)
    /** The uncompressed `{key}_{x:.2f}_{y:.2f}_{z:.2f}_re.dds` saved in the
        validation directory, named after `lightDir`. */
    | WriteReconstruction(key: string, lightDir: LightDir)

  // ---------------------------------------------------------------------------
  // One set

  datatype Verdict = NoTransmittance | SizeMismatch | Accepted

  /** std::ranges::any_of over the colors with the size test of the loop. */
  function AnyMismatch(colors: seq<InputTexture>, width: U32, height: U32): (b: bool)
    ensures b <==> exists i :: 0 <= i < |colors| && (colors[i].width != width || colors[i].height != height)
  {
    if colors == [] then false
    else
      assert forall i :: 0 < i < |colors| ==> colors[i] == colors[1..][i - 1];
      || colors[0].width != width || colors[0].height != height
      || AnyMismatch(colors[1..], width, height)
  }

  /** A set is processed exactly when it has a transmittance texture and
      every color has the transmittance's width and height. */
  function VerdictOf(texSet: InputTexSet): (v: Verdict)
    ensures v == NoTransmittance <==> texSet.tr.None?
    ensures v == Accepted <==>
              && texSet.tr.Some?
              && forall i :: 0 <= i < |texSet.colors| ==>
                   texSet.colors[i].width == texSet.tr.value.width && texSet.colors[i].height == texSet.tr.value.height
  {
    if texSet.tr.None? then NoTransmittance
    else if AnyMismatch(texSet.colors, texSet.tr.value.width, texSet.tr.value.height) then SizeMismatch
    else Accepted
  }

  /** `{key}_sh{i}.dds` */
  function ShFileName(key: string, i: nat): string
    requires i < 3
  {
    key + "_sh" + ["012"[i]] + ".dds"
  }

  /** Distinct keys or indices never share an output name. */
  lemma ShFileNamesDistinct(key1: string, i: nat, key2: string, j: nat)
    requires i < 3 && j < 3 && ShFileName(key1, i) == ShFileName(key2, j)
    ensures key1 == key2 && i == j
  {
    var n1, n2 := ShFileName(key1, i), ShFileName(key2, j);
    assert |key1| == |key2|;
    assert key1 == n1[..|key1|] && key2 == n2[..|key2|];
    assert n1[|key1| + 3] == "012"[i] && n2[|key2| + 3] == "012"[j];
  }

  /** The value cb_data.light_dir holds after the dispatch loop: the last
      color's direction, or the zero vector of the value-initialised struct. */
  function LastLightDir(colors: seq<InputTexture>): LightDir {
    if colors == [] then Zero else colors[|colors| - 1].lightDirection
  }

  /** The dispatch for color i of a set. */
  function BakeOf(texSet: InputTexSet, i: nat): Command
    requires texSet.tr.Some? && i < |texSet.colors|
  {
    var tr := texSet.tr.value;
    Bake(GroupsFor(tr.width, tr.height), BakeCB(texSet.colors[i].lightDirection, |texSet.colors|, texSet.face),
         texSet.colors[i], tr)
  }

  /** The first n bake dispatches of a set. */
  function Bakes(texSet: InputTexSet, n: nat): (r: seq<Command>)
    requires texSet.tr.Some? && n <= |texSet.colors|
    ensures |r| == n
  {
    if n == 0 then [] else Bakes(texSet, n - 1) + [BakeOf(texSet, n - 1)]
  }

  /** What the constant buffer holds once a set is done. */
  function BufferAfter(texSet: InputTexSet, buffer: Option<BakeCB>): Option<BakeCB> {
    if VerdictOf(texSet) != Accepted || texSet.colors == [] then buffer
    else Some(BakeCB(LastLightDir(texSet.colors), |texSet.colors|, texSet.face))
  }

  /** The three BC6H saves of a processed set. */
  function SaveSh(key: string): seq<Command> {
    [WriteSh(ShFileName(key, 0)), WriteSh(ShFileName(key, 1)), WriteSh(ShFileName(key, 2))]
  }

  /** The validation dispatch and the save of its reconstruction. */
  function ValidationCommands(key: string, texSet: InputTexSet, buffer: Option<BakeCB>): seq<Command>
    requires texSet.tr.Some?
  {
    var tr := texSet.tr.value;
    [Validate(tr.width, tr.height, GroupsFor(tr.width, tr.height), BufferAfter(texSet, buffer)),
     WriteReconstruction(key, LastLightDir(texSet.colors))]
  }

  /** The commands one iteration of the processing loop issues, given what
      the constant buffer holds beforehand. */
  function SetPlan(key: string, texSet: InputTexSet, validate: bool, buffer: Option<BakeCB>): (r: seq<Command>)
    ensures r == [] <==> VerdictOf(texSet) != Accepted
    ensures VerdictOf(texSet) == Accepted ==> |r| == 1 + |texSet.colors| + 3 + (if validate then 2 else 0)
  {
    if VerdictOf(texSet) != Accepted then []
    else
      var tr := texSet.tr.value;
      [InitAccumulators(tr.width, tr.height)]
      + Bakes(texSet, |texSet.colors|)
      + SaveSh(key)
      + if validate then ValidationCommands(key, texSet, buffer) else []
  }

  /** The plan of an accepted set, piece by piece. */
  lemma AcceptedPlan(key: string, texSet: InputTexSet, validate: bool, buffer: Option<BakeCB>)
    requires VerdictOf(texSet) == Accepted
    ensures SetPlan(key, texSet, validate, buffer)
         == [InitAccumulators(texSet.tr.value.width, texSet.tr.value.height)] + Bakes(texSet, |texSet.colors|)
            + SaveSh(key) + (if validate then ValidationCommands(key, texSet, buffer) else [])
  {
  }

  // ---------------------------------------------------------------------------
  // Views of a command list

  /** The bake dispatches, in order. */
  function BakesIn(cmds: seq<Command>): seq<Command> {
    if cmds == [] then []
    else (if cmds[0].Bake? then [cmds[0]] else []) + BakesIn(cmds[1..])
  }

  datatype OutputFile = ShFile(name: string) | ReconstructionFile(key: string, lightDir: LightDir)

  /** The files written, in order. */
  function FilesWritten(cmds: seq<Command>): seq<OutputFile> {
    if cmds == [] then []
    else
      (match cmds[0]
       case WriteSh(name) => [ShFile(name)]
       case WriteReconstruction(key, dir) => [ReconstructionFile(key, dir)]
       case _ => [])
      + FilesWritten(cmds[1..])
  }

  lemma {:induction false} BakesDistribute(a: seq<Command>, b: seq<Command>)
    ensures BakesIn(a + b) == BakesIn(a) + BakesIn(b)
  {
    if a == [] {
      assert a + b == b;
    } else {
      assert (a + b)[0] == a[0];
      assert (a + b)[1..] == a[1..] + b;
      BakesDistribute(a[1..], b);
    }
  }

  lemma {:induction false} FilesDistribute(a: seq<Command>, b: seq<Command>)
    ensures FilesWritten(a + b) == FilesWritten(a) + FilesWritten(b)
  {
    if a == [] {
      assert a + b == b;
    } else {
      assert (a + b)[0] == a[0];
      assert (a + b)[1..] == a[1..] + b;
      FilesDistribute(a[1..], b);
    }
  }

  lemma ViewsDistribute(a: seq<Command>, b: seq<Command>)
    ensures BakesIn(a + b) == BakesIn(a) + BakesIn(b)
    ensures FilesWritten(a + b) == FilesWritten(a) + FilesWritten(b)
  {
    BakesDistribute(a, b);
    FilesDistribute(a, b);
  }

  lemma ViewsOfOne(c: Command)
    ensures BakesIn([c]) == if c.Bake? then [c] else []
    ensures FilesWritten([c]) == match c
                                 case WriteSh(name) => [ShFile(name)]
                                 case WriteReconstruction(key, dir) => [ReconstructionFile(key, dir)]
                                 case _ => []
  {
    assert [c][1..] == [];
  }

  lemma {:induction false} BakesAreBakes(texSet: InputTexSet, n: nat)
    requires texSet.tr.Some? && n <= |texSet.colors|
    ensures BakesIn(Bakes(texSet, n)) == Bakes(texSet, n)
    ensures FilesWritten(Bakes(texSet, n)) == []
  {
    if n > 0 {
      BakesAreBakes(texSet, n - 1);
      ViewsDistribute(Bakes(texSet, n - 1), [BakeOf(texSet, n - 1)]);
      ViewsOfOne(BakeOf(texSet, n - 1));
    }
  }

  lemma {:induction false} BakesInOrder(texSet: InputTexSet, n: nat)
    requires texSet.tr.Some? && n <= |texSet.colors|
    ensures |Bakes(texSet, n)| == n
    ensures forall i :: 0 <= i < n ==> Bakes(texSet, n)[i] == BakeOf(texSet, i)
  {
    if n > 0 {
      BakesInOrder(texSet, n - 1);
    }
  }

  /** The files a set produces: its three SH files when it is processed, and
      the reconstruction named after the last color's direction (the zero
      vector when there is none) when validation is on. */
  function SetFiles(key: string, texSet: InputTexSet, validate: bool): seq<OutputFile> {
    if VerdictOf(texSet) != Accepted then []
    else
      [ShFile(ShFileName(key, 0)), ShFile(ShFileName(key, 1)), ShFile(ShFileName(key, 2))]
      + if validate then [ReconstructionFile(key, LastLightDir(texSet.colors))] else []
  }

  lemma SaveShViews(key: string)
    ensures BakesIn(SaveSh(key)) == []
    ensures FilesWritten(SaveSh(key)) == [ShFile(ShFileName(key, 0)), ShFile(ShFileName(key, 1)), ShFile(ShFileName(key, 2))]
  {
    var s0, s1, s2 := WriteSh(ShFileName(key, 0)), WriteSh(ShFileName(key, 1)), WriteSh(ShFileName(key, 2));
    assert SaveSh(key) == [s0] + ([s1] + [s2]);
    ViewsOfOne(s0); ViewsOfOne(s1); ViewsOfOne(s2);
    ViewsDistribute([s1], [s2]);
    ViewsDistribute([s0], [s1] + [s2]);
  }

  lemma ValidationViews(key: string, texSet: InputTexSet, buffer: Option<BakeCB>)
    requires texSet.tr.Some?
    ensures BakesIn(ValidationCommands(key, texSet, buffer)) == []
    ensures FilesWritten(ValidationCommands(key, texSet, buffer)) == [ReconstructionFile(key, LastLightDir(texSet.colors))]
  {
    var cmds := ValidationCommands(key, texSet, buffer);
    assert cmds == [cmds[0]] + [cmds[1]];
    ViewsOfOne(cmds[0]); ViewsOfOne(cmds[1]);
    ViewsDistribute([cmds[0]], [cmds[1]]);
  }

  /** The bakes in four consecutive pieces of a plan. */
  lemma BakesOfFour(a: seq<Command>, b: seq<Command>, c: seq<Command>, d: seq<Command>)
    requires BakesIn(a) == [] && BakesIn(c) == [] && BakesIn(d) == []
    ensures BakesIn(a + b + c + d) == BakesIn(b)
  {
    BakesDistribute(a, b);
    BakesDistribute(a + b, c);
    BakesDistribute(a + b + c, d);
  }

  /** The files written by four consecutive pieces of a plan. */
  lemma FilesOfFour(a: seq<Command>, b: seq<Command>, c: seq<Command>, d: seq<Command>)
    requires FilesWritten(a) == [] && FilesWritten(b) == []
    ensures FilesWritten(a + b + c + d) == FilesWritten(c) + FilesWritten(d)
  {
    FilesDistribute(a, b);
    FilesDistribute(a + b, c);
    FilesDistribute(a + b + c, d);
  }

  /** The bake dispatches of an accepted set's plan. */
  lemma PlanBakes(key: string, texSet: InputTexSet, validate: bool, buffer: Option<BakeCB>)
    requires VerdictOf(texSet) == Accepted
    ensures BakesIn(SetPlan(key, texSet, validate, buffer)) == Bakes(texSet, |texSet.colors|)
  {
    var tr := texSet.tr.value;
    var init := [InitAccumulators(tr.width, tr.height)];
    var bakes := Bakes(texSet, |texSet.colors|);
    var tail := if validate then ValidationCommands(key, texSet, buffer) else [];
    assert SetPlan(key, texSet, validate, buffer) == init + bakes + SaveSh(key) + tail by {
      AcceptedPlan(key, texSet, validate, buffer);
    }
    assert BakesIn(init) == [] by { ViewsOfOne(init[0]); assert [init[0]] == init; }
    assert BakesIn(bakes) == bakes by { BakesAreBakes(texSet, |texSet.colors|); }
    assert BakesIn(SaveSh(key)) == [] by { SaveShViews(key); }
    assert BakesIn(tail) == [] by {
      if validate { ValidationViews(key, texSet, buffer); }
    }
    BakesOfFour(init, bakes, SaveSh(key), tail);
  }

  /** The files an accepted set's plan writes. */
  lemma PlanFiles(key: string, texSet: InputTexSet, validate: bool, buffer: Option<BakeCB>)
    requires VerdictOf(texSet) == Accepted
    ensures FilesWritten(SetPlan(key, texSet, validate, buffer)) == SetFiles(key, texSet, validate)
  {
    var tr := texSet.tr.value;
    var init := [InitAccumulators(tr.width, tr.height)];
    var bakes := Bakes(texSet, |texSet.colors|);
    var tail := if validate then ValidationCommands(key, texSet, buffer) else [];
    assert SetPlan(key, texSet, validate, buffer) == init + bakes + SaveSh(key) + tail by {
      AcceptedPlan(key, texSet, validate, buffer);
    }
    assert FilesWritten(init) == [] by { ViewsOfOne(init[0]); assert [init[0]] == init; }
    assert FilesWritten(bakes) == [] by { BakesAreBakes(texSet, |texSet.colors|); }
    assert FilesWritten(SaveSh(key)) == [ShFile(ShFileName(key, 0)), ShFile(ShFileName(key, 1)), ShFile(ShFileName(key, 2))] by {
      SaveShViews(key);
    }
    assert FilesWritten(tail) == if validate then [ReconstructionFile(key, LastLightDir(texSet.colors))] else [] by {
      if validate { ValidationViews(key, texSet, buffer); }
    }
    FilesOfFour(init, bakes, SaveSh(key), tail);
  }

  /** A skipped set issues nothing and leaves the constant buffer alone. */
  lemma SkippedSetIssuesNothing(key: string, texSet: InputTexSet, validate: bool, buffer: Option<BakeCB>)
    requires VerdictOf(texSet) != Accepted
    ensures SetPlan(key, texSet, validate, buffer) == [] && BufferAfter(texSet, buffer) == buffer
  {
  }

  /** A processed set is baked once per color, in colors order, each time
      with that color's direction, the set's face, a weight of one over the
      number of dispatches, and ceil(w / 8) x ceil(h / 8) x 1 groups. */
  lemma ProcessedSetBakes(key: string, texSet: InputTexSet, validate: bool, buffer: Option<BakeCB>)
    requires VerdictOf(texSet) == Accepted
    ensures var bakes, tr := BakesIn(SetPlan(key, texSet, validate, buffer)), texSet.tr.value;
            && |bakes| == |texSet.colors|
            && forall i :: 0 <= i < |bakes| ==>
                 bakes[i] == Bake(GroupsFor(tr.width, tr.height),
                                  BakeCB(texSet.colors[i].lightDirection, |bakes|, texSet.face),
                                  texSet.colors[i], tr)
  {
    PlanBakes(key, texSet, validate, buffer);
    BakesInOrder(texSet, |texSet.colors|);
  }

  /** The files a set's commands write are SetFiles, whatever the buffer held. */
  lemma SetPlanWrites(key: string, texSet: InputTexSet, validate: bool, buffer: Option<BakeCB>)
    ensures FilesWritten(SetPlan(key, texSet, validate, buffer)) == SetFiles(key, texSet, validate)
  {
    if VerdictOf(texSet) == Accepted {
      PlanFiles(key, texSet, validate, buffer);
    }
  }

  /** The validation pass ends the plan. Its reconstruction is named after
      the last color's direction, which is also what the constant buffer
      holds for the validation kernel; for a set without colors the name
      uses the zero vector while the buffer still holds whatever was
      uploaded before this set. */
  lemma ValidationPass(key: string, texSet: InputTexSet, buffer: Option<BakeCB>)
    requires VerdictOf(texSet) == Accepted
    ensures var plan, tr := SetPlan(key, texSet, true, buffer), texSet.tr.value;
            && 2 <= |plan|
            && plan[|plan| - 1] == WriteReconstruction(key, LastLightDir(texSet.colors))
            && plan[|plan| - 2] == Validate(tr.width, tr.height, GroupsFor(tr.width, tr.height), BufferAfter(texSet, buffer))
            && (texSet.colors != [] ==> BufferAfter(texSet, buffer) == Some(BakeCB(LastLightDir(texSet.colors), |texSet.colors|, texSet.face)))
            && (texSet.colors == [] ==> LastLightDir(texSet.colors) == Zero && BufferAfter(texSet, buffer) == buffer)
  {
  }

  // ---------------------------------------------------------------------------
  // All sets

  datatype Progress = Progress(commands: seq<Command>, buffer: Option<BakeCB>)

  /** The processing loop over the catalog keys in `order`, the iteration
      order of the unordered_map, starting from constant buffer `buffer`. */
  function PlanAll(order: seq<string>, inputs: TexInputs, validate: bool, buffer: Option<BakeCB>): Progress
    decreases |order|
  {
    if order == [] then Progress([], buffer)
    else
      var prev := PlanAll(order[..|order| - 1], inputs, validate, buffer);
      var key := order[|order| - 1];
      Progress(prev.commands + SetPlan(key, SetAt(inputs, key), validate, prev.buffer),
               BufferAfter(SetAt(inputs, key), prev.buffer))
  }

  /** One more iteration of the processing loop. */
  lemma PlanAllStep(order: seq<string>, i: nat, inputs: TexInputs, validate: bool, buffer: Option<BakeCB>)
    requires i < |order|
    ensures var prev := PlanAll(order[..i], inputs, validate, buffer);
            PlanAll(order[..i + 1], inputs, validate, buffer)
              == Progress(prev.commands + SetPlan(order[i], SetAt(inputs, order[i]), validate, prev.buffer),
                          BufferAfter(SetAt(inputs, order[i]), prev.buffer))
  {
    assert order[..i + 1][..i] == order[..i];
  }

  /** The files of each key of `keys`, one key after another. */
  function Flatten(keys: seq<string>, files: string -> seq<OutputFile>): seq<OutputFile>
    decreases |keys|
  {
    if keys == [] then [] else Flatten(keys[..|keys| - 1], files) + files(keys[|keys| - 1])
  }

  lemma {:induction false} InFlatten(keys: seq<string>, files: string -> seq<OutputFile>, f: OutputFile)
    ensures f in Flatten(keys, files) <==> exists i :: 0 <= i < |keys| && f in files(keys[i])
  {
    if keys != [] {
      var p := keys[..|keys| - 1];
      InFlatten(p, files, f);
      if f in Flatten(p, files) {
        var i :| 0 <= i < |p| && f in files(p[i]);
        assert keys[i] == p[i];
      }
      if i :| 0 <= i < |keys| && f in files(keys[i]) {
        if i < |p| {
          assert p[i] == keys[i];
        }
      }
    }
  }

  /** The files each key's set writes. */
  function KeyFiles(inputs: TexInputs, validate: bool): string -> seq<OutputFile> {
    key => SetFiles(key, SetAt(inputs, key), validate)
  }

  /** The SetFiles of the keys in `order`, one after another. */
  function OrderedSetFiles(order: seq<string>, inputs: TexInputs, validate: bool): seq<OutputFile> {
    Flatten(order, KeyFiles(inputs, validate))
  }

  /** The loop writes each set's files in visiting order, however the
      constant buffer evolves. */
  lemma {:induction false} PlanAllWrites(order: seq<string>, inputs: TexInputs, validate: bool, buffer: Option<BakeCB>)
    ensures FilesWritten(PlanAll(order, inputs, validate, buffer).commands) == OrderedSetFiles(order, inputs, validate)
  {
    if order != [] {
      var p, key := order[..|order| - 1], order[|order| - 1];
      PlanAllWrites(p, inputs, validate, buffer);
      var prev := PlanAll(p, inputs, validate, buffer);
      ViewsDistribute(prev.commands, SetPlan(key, SetAt(inputs, key), validate, prev.buffer));
      SetPlanWrites(key, SetAt(inputs, key), validate, prev.buffer);
    }
  }

  lemma OrderedSetFilesMembers(order: seq<string>, inputs: TexInputs, validate: bool)
    ensures forall f :: f in OrderedSetFiles(order, inputs, validate) <==>
                        exists i :: 0 <= i < |order| && f in SetFiles(order[i], SetAt(inputs, order[i]), validate)
  {
    forall f
      ensures f in OrderedSetFiles(order, inputs, validate) <==>
              exists i :: 0 <= i < |order| && f in SetFiles(order[i], SetAt(inputs, order[i]), validate)
    {
      InFlatten(order, KeyFiles(inputs, validate), f);
    }
  }

  /** Whatever order the keys are visited in, as long as it visits every
      key, the files written are exactly the SetFiles of the catalog's sets. */
  lemma FilesIndependentOfOrder(order: seq<string>, inputs: TexInputs, validate: bool, buffer: Option<BakeCB>)
    requires forall k :: k in inputs ==> k in order
    ensures forall f :: f in FilesWritten(PlanAll(order, inputs, validate, buffer).commands) <==>
                        exists k :: k in inputs && f in SetFiles(k, inputs[k], validate)
  {
    PlanAllWrites(order, inputs, validate, buffer);
    OrderedSetFilesMembers(order, inputs, validate);
    forall i, f | 0 <= i < |order| && f in SetFiles(order[i], SetAt(inputs, order[i]), validate)
      ensures order[i] in inputs
    {
      if order[i] !in inputs {
        assert false;
      }
    }
    forall k, f | k in inputs && f in SetFiles(k, inputs[k], validate)
      ensures exists i :: 0 <= i < |order| && f in SetFiles(order[i], SetAt(inputs, order[i]), validate)
    {
      var i :| 0 <= i < |order| && order[i] == k;
    }
  }

  /** Two visiting orders of the same catalog write the same files. */
  lemma SameFilesInAnyOrder(order1: seq<string>, order2: seq<string>, inputs: TexInputs, validate: bool,
                            buffer1: Option<BakeCB>, buffer2: Option<BakeCB>)
    requires forall k :: k in inputs ==> k in order1 && k in order2
    ensures forall f :: f in FilesWritten(PlanAll(order1, inputs, validate, buffer1).commands) <==>
                        f in FilesWritten(PlanAll(order2, inputs, validate, buffer2).commands)
  {
    FilesIndependentOfOrder(order1, inputs, validate, buffer1);
    FilesIndependentOfOrder(order2, inputs, validate, buffer2);
  }
}

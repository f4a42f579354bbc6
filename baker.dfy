/** The state main (src/main.cpp) keeps in `d3d` while it reads the input
    directory and processes the catalog, updated in place as the source
    does. The GPU side is the stream of recorded commands. */
module Bakery {
  import opened Wrappers
  import opened FileName
  import opened Catalog
  import opened Plan

  /** D3dObjs as far as the model goes: the catalog `tex_inputs`, what the
      constant buffer `common_buffer` last received, and the commands issued
      on the device context so far. */
  class D3dObjs {
    var texInputs: TexInputs
    var commonBuffer: Option<BakeCB>
    var commands: seq<Command>

    /** `D3dObjs d3d{}`: an empty catalog and a buffer nothing was uploaded to. */
    constructor ()
      ensures texInputs == map[] && commonBuffer == None && commands == []
    {
      texInputs := map[];
      commonBuffer := None;
      commands := [];
    }

    /** One iteration of the read loop over directory entry `e`: the
        extension test and the two patterns, then the catalog update. */
    method ReadTexture(e: DirEntry) returns (outcome: ReadOutcome)
      modifies this
      ensures Step(outcome, texInputs) == Admit(old(texInputs), Classify(e.name), e.load)
      ensures commonBuffer == old(commonBuffer) && commands == old(commands)
    {
      var cls := Classify(e.name);
      outcome := Store(cls, e.load);
    }

    /** The read loop's body once the name has been classified as `cls`. */
    method Store(cls: NameClass, load: LoadResult) returns (outcome: ReadOutcome)
      modifies this
      ensures Step(outcome, texInputs) == Admit(old(texInputs), cls, load)
      ensures commonBuffer == old(commonBuffer) && commands == old(commands)
    {
      if cls.WrongExtension? {
        return NotDds;
      }
      if cls.NoMatch? {
        return NamingMismatch;
      }
      if load.LoadFailed? {
        return LoadFailure;
      }
      if load.NotTexture2D? {
        return Not2D;
      }
      var tex := InputTexture(UnitX, load.width, load.height);
      if cls.RadianceSample? {
        tex := tex.(lightDirection := Captured(cls.x, cls.y, cls.z));
      }
      assert tex == TextureOf(cls, load);
      var key := Key(cls.identifier, cls.faceStr);
      ghost var m := texInputs;
      ghost var before := SetAt(m, key);
      ghost var updated := if cls.Transmittance? then before.(tr := Some(tex))
                           else before.(colors := before.colors + [tex]);
      if key !in texInputs {
        texInputs := texInputs[key := EmptySet];
      }
      if cls.Transmittance? {
        texInputs := texInputs[key := texInputs[key].(tr := Some(tex))];
      } else {
        texInputs := texInputs[key := texInputs[key].(colors := texInputs[key].colors + [tex])];
      }
      assert texInputs == m[key := updated];
      var face := FaceStrToUint(cls.faceStr);
      if face.None? {
        return Terminated;
      }
      texInputs := texInputs[key := texInputs[key].(face := face.value)];
      assert texInputs == m[key := updated.(face := face.value)];
      return Added;
    }

    /** The read loop over the directory listing; `terminated` reports that
        faceStrToUint threw and the run ends there. */
    method ReadTextures(entries: seq<DirEntry>) returns (terminated: bool)
      modifies this
      ensures ReadState(texInputs, terminated) == ReadAll(old(texInputs), Visits(entries))
      ensures commonBuffer == old(commonBuffer) && commands == old(commands)
    {
      ghost var vs := Visits(entries);
      ghost var start := texInputs;
      terminated := false;
      var i := 0;
      while i < |entries|
        invariant 0 <= i <= |entries|
        invariant ReadAll(start, vs[..i]) == ReadState(texInputs, false)
        invariant commonBuffer == old(commonBuffer) && commands == old(commands)
      {
        ReadAllStep(start, vs, i);
        assert vs[i] == Visit(Classify(entries[i].name), entries[i].load);
        var outcome := ReadTexture(entries[i]);
        if outcome == Terminated {
          terminated := true;
          TerminationIsFinal(start, vs, i + 1);
          return;
        }
        i := i + 1;
      }
      assert vs[..i] == vs;
    }

    /** One iteration of the processing loop, for the set stored under `key`:
        the skip checks, then the bake, the saves and the validation pass. */
    method ProcessSet(key: string, validate: bool)
      requires key in texInputs
      modifies this
      ensures texInputs == old(texInputs)
      ensures commands == old(commands) + SetPlan(key, old(texInputs)[key], validate, old(commonBuffer))
      ensures commonBuffer == BufferAfter(old(texInputs)[key], old(commonBuffer))
    {
      var texSet := texInputs[key];
      if texSet.tr.None? {
        return;
      }
      if AnyMismatch(texSet.colors, texSet.tr.value.width, texSet.tr.value.height) {
        return;
      }
      AcceptedPlan(key, texSet, validate, commonBuffer);
      BakeSet(key, texSet, validate);
    }

    /** The accepted path of one iteration. */
    method BakeSet(key: string, texSet: InputTexSet, validate: bool)
      requires VerdictOf(texSet) == Accepted
      modifies this
      ensures texInputs == old(texInputs)
      ensures commands == old(commands) + [InitAccumulators(texSet.tr.value.width, texSet.tr.value.height)]
                          + Bakes(texSet, |texSet.colors|) + SaveSh(key)
                          + (if validate then ValidationCommands(key, texSet, old(commonBuffer)) else [])
      ensures commonBuffer == BufferAfter(texSet, old(commonBuffer))
    {
      var tr := texSet.tr.value;
      ghost var start, buffer := commands, commonBuffer;
      ghost var bakes := [InitAccumulators(tr.width, tr.height)] + Bakes(texSet, |texSet.colors|);
      ghost var tail := if validate then ValidationCommands(key, texSet, buffer) else [];
      var lightDir := Dispatch(texSet);
      SaveCoefficients(key);
      AppendAssociates(start, bakes, SaveSh(key));
      if validate {
        var groups := Groups(GroupCount(tr.width), GroupCount(tr.height), 1);
        assert tail == [Validate(tr.width, tr.height, groups, commonBuffer), WriteReconstruction(key, lightDir)];
        commands := commands + [Validate(tr.width, tr.height, groups, commonBuffer), WriteReconstruction(key, lightDir)];
      } else {
        assert commands == commands + tail;
      }
      AppendAssociates(start, bakes + SaveSh(key), tail);
    }

    /** Clears the accumulators and dispatches the bake kernel once per
        color, uploading the constant buffer before each dispatch; returns
        the light_dir cb_data holds afterwards. */
    method Dispatch(texSet: InputTexSet) returns (lightDir: LightDir)
      requires VerdictOf(texSet) == Accepted
      modifies this
      ensures texInputs == old(texInputs)
      ensures commands == old(commands) + [InitAccumulators(texSet.tr.value.width, texSet.tr.value.height)]
                                        + Bakes(texSet, |texSet.colors|)
      ensures commonBuffer == BufferAfter(texSet, old(commonBuffer))
      ensures lightDir == LastLightDir(texSet.colors)
    {
      var tr := texSet.tr.value;
      var width, height := tr.width, tr.height;
      commands := commands + [InitAccumulators(width, height)];
      var cbData := BakeCB(Zero, |texSet.colors|, texSet.face);
      var i := 0;
      while i < |texSet.colors|
        invariant 0 <= i <= |texSet.colors|
        invariant texInputs == old(texInputs)
        invariant commands == old(commands) + [InitAccumulators(width, height)] + Bakes(texSet, i)
        invariant cbData == BakeCB(LastLightDir(texSet.colors[..i]), |texSet.colors|, texSet.face)
        invariant commonBuffer == if i == 0 then old(commonBuffer) else Some(cbData)
      {
        cbData := cbData.(lightDir := texSet.colors[i].lightDirection);
        commonBuffer := Some(cbData);
        commands := commands + [Bake(Groups(GroupCount(width), GroupCount(height), 1), cbData, texSet.colors[i], tr)];
        i := i + 1;
      }
      assert texSet.colors[..i] == texSet.colors;
      lightDir := cbData.lightDir;
    }

    /** Saves the three accumulators as `{key}_sh{i}.dds`. */
    method SaveCoefficients(key: string)
      modifies this
      ensures texInputs == old(texInputs) && commonBuffer == old(commonBuffer)
      ensures commands == old(commands) + SaveSh(key)
    {
      for s := 0 to 3
        invariant texInputs == old(texInputs) && commonBuffer == old(commonBuffer)
        invariant commands == old(commands) + SaveSh(key)[..s]
      {
        assert SaveSh(key)[..s + 1] == SaveSh(key)[..s] + [WriteSh(ShFileName(key, s))];
        commands := commands + [WriteSh(ShFileName(key, s))];
      }
      assert SaveSh(key)[..3] == SaveSh(key);
    }

    /** The processing loop; `order` is the iteration order of the
        unordered_map, which visits every key once. */
    method Process(order: seq<string>, validate: bool)
      requires forall i :: 0 <= i < |order| ==> order[i] in texInputs
      requires forall k :: k in texInputs ==> k in order
      modifies this
      ensures var p := PlanAll(order, old(texInputs), validate, old(commonBuffer));
              commands == old(commands) + p.commands && commonBuffer == p.buffer
      ensures texInputs == old(texInputs)
    {
      ghost var inputs, start := texInputs, commands;
      ghost var progress := Progress([], commonBuffer);
      var i := 0;
      while i < |order|
        invariant 0 <= i <= |order|
        invariant texInputs == inputs
        invariant progress == PlanAll(order[..i], inputs, validate, old(commonBuffer))
        invariant commands == start + progress.commands && commonBuffer == progress.buffer
      {
        PlanAllStep(order, i, inputs, validate, old(commonBuffer));
        var key := order[i];
        ghost var plan := SetPlan(key, inputs[key], validate, progress.buffer);
        ghost var before := commands;
        ProcessSet(key, validate);
        assert commands == before + plan;
        AppendAssociates(start, progress.commands, plan);
        progress := Progress(progress.commands + plan, BufferAfter(inputs[key], progress.buffer));
        i := i + 1;
      }
      assert order[..i] == order;
    }
  }

  lemma AppendAssociates(a: seq<Command>, b: seq<Command>, c: seq<Command>)
    ensures a + (b + c) == a + b + c
  {
  }

  /** The keys of `m` in the order an unordered_map visits them: each once. */
  predicate IsListing(order: seq<string>, m: TexInputs) {
    && (forall i :: 0 <= i < |order| ==> order[i] in m)
    && (forall k :: k in m ==> k in order)
    && (forall i, j :: 0 <= i < j < |order| ==> order[i] != order[j])
  }

  /** main from the read loop on: read the directory listing `entries`,
      then process the catalog in `order`. When faceStrToUint throws no
      command has been issued yet. */
  method RunBakery(entries: seq<DirEntry>, order: seq<string>, validate: bool)
    returns (terminated: bool, commands: seq<Command>)
    requires IsListing(order, ReadAll(map[], Visits(entries)).inputs)
    ensures terminated == ReadAll(map[], Visits(entries)).terminated
    ensures terminated ==> commands == []
    ensures !terminated ==> commands == PlanAll(order, ReadAll(map[], Visits(entries)).inputs, validate, None).commands
  {
    var d3d := new D3dObjs();
    terminated := d3d.ReadTextures(entries);
    if terminated {
      return terminated, [];
    }
    d3d.Process(order, validate);
    commands := d3d.commands;
  }
}

/** The input catalog `d3d.tex_inputs` (src/main.cpp, the read loop of main):
    what one directory entry does to it, what the whole directory listing
    builds, and where the run ends when faceStrToUint throws. */
module Catalog {
  import opened Wrappers
  import opened FileName

  /** uint32_t */
  type U32 = x: nat | x < 0x1_0000_0000

  /** A float3 light direction, kept symbolically. */
  datatype LightDir =
    | UnitX                                        // InputTexture's default {1, 0, 0}
    | Zero                                         // a value-initialised BakeCBData's light_dir
    | Captured(x: string, y: string, z: string)    // the normalised vector of three captured tokens

  /** InputTexture; the shader resource view is represented by presence. */
  datatype InputTexture = InputTexture(lightDirection: LightDir, width: U32, height: U32)

  /** InputTexSet; `tr == None` is a transmittance slot whose srv is still nullptr. */
  datatype InputTexSet = InputTexSet(face: U32, tr: Option<InputTexture>, colors: seq<InputTexture>)

  /** The value-initialised set `{}` that a new key starts with. */
  const EmptySet: InputTexSet := InputTexSet(0, None, [])

  type TexInputs = map<string, InputTexSet>

  /** The outcome of CreateDDSTextureFromFile and the ID3D11Texture2D query,
      with the texture's size on success. */
  datatype LoadResult = LoadFailed | NotTexture2D | Loaded(width: U32, height: U32)

  /** One directory entry, in the order the directory iterator yields it. */
  datatype DirEntry = DirEntry(name: string, load: LoadResult)

  datatype ReadOutcome =
    | NotDds          // "Skipping {}"
    | NamingMismatch  // "does not match the naming pattern"
    | LoadFailure     // "Failed to read texture from {}"
    | Not2D           // "{} is not a 2d texture"
    | Added           // "Loaded {} ({} x {})"
    | Terminated      // faceStrToUint threw; nothing catches it and the run ends

  function Key(identifier: string, faceStr: string): string {
    identifier + "_" + faceStr
  }

  /** A key ends in its face string, so the face can be read back off the key
      and one key never stands for two faces. */
  lemma KeySplits(identifier: string, faceStr: string)
    requires IsFaceStr(faceStr)
    ensures var k := Key(identifier, faceStr);
            3 <= |k| && k[|k| - 2..] == faceStr && k[..|k| - 3] == identifier && k[|k| - 3] == '_'
  {
    var k := Key(identifier, faceStr);
    assert k[|k| - 2..] == faceStr;
    assert k[..|k| - 3] == identifier;
  }

  lemma KeyInjective(id1: string, face1: string, id2: string, face2: string)
    requires IsFaceStr(face1) && IsFaceStr(face2) && Key(id1, face1) == Key(id2, face2)
    ensures id1 == id2 && face1 == face2
  {
    KeySplits(id1, face1);
    KeySplits(id2, face2);
  }

  /** A classified name with its load result reaches the catalog: the name
      matches a pattern and the file loads as a 2D texture. */
  predicate Admits(c: NameClass, load: LoadResult) {
    (c.Transmittance? || c.RadianceSample?) && load.Loaded?
  }

  /** The InputTexture the loop fills: a transmittance texture keeps the
      default direction, a radiance sample takes its three tokens. */
  function TextureOf(c: NameClass, load: LoadResult): InputTexture
    requires Admits(c, load)
  {
    InputTexture(if c.Transmittance? then UnitX else Captured(c.x, c.y, c.z), load.width, load.height)
  }

  function KeyOf(c: NameClass): string
    requires c.Transmittance? || c.RadianceSample?
  {
    Key(c.identifier, c.faceStr)
  }

  datatype Step = Step(outcome: ReadOutcome, inputs: TexInputs)

  /** The set stored under k, or the value-initialised one. */
  function SetAt(m: TexInputs, k: string): InputTexSet {
    if k in m then m[k] else EmptySet
  }

  /** The body of the read loop once the name has been classified. On the
      throwing path the map has already been updated (key inserted, tr or
      colors written) and only the face assignment is missing. */
  function Admit(m: TexInputs, c: NameClass, load: LoadResult): (r: Step)
    ensures r.outcome == NotDds <==> c.WrongExtension?
    ensures r.outcome == NamingMismatch <==> c.NoMatch?
    ensures r.outcome == LoadFailure <==> (c.Transmittance? || c.RadianceSample?) && load.LoadFailed?
    ensures r.outcome == Not2D <==> (c.Transmittance? || c.RadianceSample?) && load.NotTexture2D?
    ensures !Admits(c, load) ==> r.inputs == m && r.outcome != Added && r.outcome != Terminated
    ensures Admits(c, load) ==> && r.inputs.Keys == m.Keys + {KeyOf(c)}
                                && (r.outcome == Added || r.outcome == Terminated)
    ensures Admits(c, load) && IsFaceStr(c.faceStr) ==> (r.outcome == Terminated <==> c.faceStr == "-z")
    ensures forall k :: k in m && !(Admits(c, load) && k == KeyOf(c)) ==> k in r.inputs && r.inputs[k] == m[k]
  {
    if c.WrongExtension? then Step(NotDds, m)
    else if c.NoMatch? then Step(NamingMismatch, m)
    else match load
      case LoadFailed => Step(LoadFailure, m)
      case NotTexture2D => Step(Not2D, m)
      case Loaded(_, _) =>
        var key := KeyOf(c);
        var before := SetAt(m, key);
        var tex := TextureOf(c, load);
        var updated := if c.Transmittance? then before.(tr := Some(tex))
                       else before.(colors := before.colors + [tex]);
        FaceLookupFailsOnlyForMinusZ(c.faceStr);
        match FaceStrToUint(c.faceStr)
        case None => Step(Terminated, m[key := updated])
        case Some(f) => Step(Added, m[key := updated.(face := f)])
  }

  /** An accepted radiance sample is appended at the end of its set's colors;
      the set's transmittance is untouched. */
  lemma ColorAppends(m: TexInputs, c: NameClass, load: LoadResult)
    requires Admits(c, load) && c.RadianceSample?
    ensures var after := Admit(m, c, load).inputs[KeyOf(c)];
            && after.colors == SetAt(m, KeyOf(c)).colors + [TextureOf(c, load)]
            && after.tr == SetAt(m, KeyOf(c)).tr
  {
  }

  /** An accepted transmittance replaces the set's previous one without a
      warning; the set's colors are untouched. */
  lemma TransmittanceOverwrites(m: TexInputs, c: NameClass, load: LoadResult)
    requires Admits(c, load) && c.Transmittance?
    ensures var after := Admit(m, c, load).inputs[KeyOf(c)];
            && after.tr == Some(TextureOf(c, load))
            && after.colors == SetAt(m, KeyOf(c)).colors
  {
  }

  /** After an accepted entry its set's face is the index of the face string
      that ends the key, whichever file of the set came last. */
  lemma FaceFollowsKey(m: TexInputs, c: NameClass, load: LoadResult)
    requires Admits(c, load) && IsFaceStr(c.faceStr) && Admit(m, c, load).outcome == Added
    ensures var k := KeyOf(c);
            3 <= |k| && FaceStrToUint(k[|k| - 2..]) == Some(Admit(m, c, load).inputs[k].face)
  {
    KeySplits(c.identifier, c.faceStr);
  }

  // ---------------------------------------------------------------------------
  // The whole directory

  /** A directory entry with its name classified. */
  datatype Visit = Visit(cls: NameClass, load: LoadResult)

  /** The loop classifies each name before it admits the entry. */
  function Visits(es: seq<DirEntry>): seq<Visit> {
    seq(|es|, i requires 0 <= i < |es| => Visit(Classify(es[i].name), es[i].load))
  }

  /** A pattern match always captures a face string `[+-][xyz]`. */
  predicate WellFormed(v: Visit) {
    (v.cls.Transmittance? || v.cls.RadianceSample?) ==> IsFaceStr(v.cls.faceStr)
  }

  lemma VisitsWellFormed(es: seq<DirEntry>)
    ensures forall i :: 0 <= i < |es| ==> WellFormed(Visits(es)[i])
  {
  }

  predicate Reaches(v: Visit) {
    Admits(v.cls, v.load)
  }

  /** A visit that makes faceStrToUint throw. */
  predicate Throws(v: Visit) {
    Reaches(v) && v.cls.faceStr == "-z"
  }

  datatype ReadState = ReadState(inputs: TexInputs, terminated: bool)

  /** The read loop over the classified directory listing `vs`, from catalog
      `m`; it stops at the first visit that throws. */
  function ReadAll(m: TexInputs, vs: seq<Visit>): (r: ReadState)
    ensures m.Keys <= r.inputs.Keys
    decreases |vs|
  {
    if vs == [] then ReadState(m, false)
    else
      var prev := ReadAll(m, vs[..|vs| - 1]);
      if prev.terminated then prev
      else
        var v := vs[|vs| - 1];
        var s := Admit(prev.inputs, v.cls, v.load);
        ReadState(s.inputs, s.outcome == Terminated)
  }

  /** One more iteration of the read loop. */
  lemma ReadAllStep(m: TexInputs, vs: seq<Visit>, i: nat)
    requires i < |vs| && !ReadAll(m, vs[..i]).terminated
    ensures var s := Admit(ReadAll(m, vs[..i]).inputs, vs[i].cls, vs[i].load);
            ReadAll(m, vs[..i + 1]) == ReadState(s.inputs, s.outcome == Terminated)
  {
    assert vs[..i + 1][..i] == vs[..i];
  }

  /** Once faceStrToUint has thrown, the entries after it change nothing. */
  lemma {:induction false} TerminationIsFinal(m: TexInputs, vs: seq<Visit>, n: nat)
    requires n <= |vs| && ReadAll(m, vs[..n]).terminated
    ensures ReadAll(m, vs) == ReadAll(m, vs[..n])
    decreases |vs| - n
  {
    if n < |vs| {
      var p := vs[..|vs| - 1];
      assert p[..n] == vs[..n];
      TerminationIsFinal(m, p, n);
    } else {
      assert vs[..n] == vs;
    }
  }

  /** The run ends during reading exactly when some file with face `-z`
      matches a pattern and loads. */
  lemma {:induction false} TerminatesIffMinusZ(m: TexInputs, vs: seq<Visit>)
    requires forall i :: 0 <= i < |vs| ==> WellFormed(vs[i])
    ensures ReadAll(m, vs).terminated <==> exists i :: 0 <= i < |vs| && Throws(vs[i])
  {
    if vs != [] {
      var p := vs[..|vs| - 1];
      assert forall i :: 0 <= i < |p| ==> p[i] == vs[i];
      TerminatesIffMinusZ(m, p);
      if exists i :: 0 <= i < |p| && Throws(p[i]) {
        var i :| 0 <= i < |p| && Throws(p[i]);
        assert Throws(vs[i]);
      }
      if exists i :: 0 <= i < |vs| && Throws(vs[i]) {
        var i :| 0 <= i < |vs| && Throws(vs[i]);
        if i < |p| { assert Throws(p[i]); }
      }
    }
  }

  /** Reference definitions, one key at a time. */
  ghost predicate Mentions(vs: seq<Visit>, k: string) {
    exists i :: 0 <= i < |vs| && Reaches(vs[i]) && KeyOf(vs[i].cls) == k
  }

  /** The radiance samples of key k that reach the catalog, in visit order. */
  function ColorsFor(vs: seq<Visit>, k: string): seq<InputTexture>
    decreases |vs|
  {
    if vs == [] then []
    else
      var v := vs[|vs| - 1];
      ColorsFor(vs[..|vs| - 1], k)
        + if Reaches(v) && v.cls.RadianceSample? && KeyOf(v.cls) == k then [TextureOf(v.cls, v.load)] else []
  }

  /** The last transmittance of key k that reaches the catalog. */
  function LastTransmittance(vs: seq<Visit>, k: string): Option<InputTexture>
    decreases |vs|
  {
    if vs == [] then None
    else
      var v := vs[|vs| - 1];
      if Reaches(v) && v.cls.Transmittance? && KeyOf(v.cls) == k then Some(TextureOf(v.cls, v.load))
      else LastTransmittance(vs[..|vs| - 1], k)
  }

  lemma MentionsSnoc(vs: seq<Visit>, k: string)
    requires vs != []
    ensures var p, v := vs[..|vs| - 1], vs[|vs| - 1];
            Mentions(vs, k) <==> Mentions(p, k) || (Reaches(v) && KeyOf(v.cls) == k)
  {
    var p := vs[..|vs| - 1];
    if Mentions(p, k) {
      var i :| 0 <= i < |p| && Reaches(p[i]) && KeyOf(p[i].cls) == k;
      assert vs[i] == p[i];
    }
    if Mentions(vs, k) {
      var i :| 0 <= i < |vs| && Reaches(vs[i]) && KeyOf(vs[i].cls) == k;
      if i < |p| { assert p[i] == vs[i]; }
    }
  }

  /** When reading runs to the end, the catalog built from an empty map holds
      exactly the keys some file reached; each set's colors are that key's
      radiance samples in visit order, its tr is the key's last
      transmittance, and its face is the index of the face the key ends in. */
  lemma {:induction false} CatalogContents(vs: seq<Visit>, k: string)
    requires forall i :: 0 <= i < |vs| ==> WellFormed(vs[i])
    requires !ReadAll(map[], vs).terminated
    ensures var m := ReadAll(map[], vs).inputs;
            && (k in m <==> Mentions(vs, k))
            && SetAt(m, k).colors == ColorsFor(vs, k)
            && SetAt(m, k).tr == LastTransmittance(vs, k)
            && (k in m ==> 3 <= |k| && FaceStrToUint(k[|k| - 2..]) == Some(m[k].face))
  {
    if vs != [] {
      var p, v := vs[..|vs| - 1], vs[|vs| - 1];
      assert forall i :: 0 <= i < |p| ==> p[i] == vs[i];
      assert !ReadAll(map[], p).terminated;
      CatalogContents(p, k);
      MentionsSnoc(vs, k);
      var before := ReadAll(map[], p).inputs;
      if Reaches(v) && KeyOf(v.cls) == k {
        FaceFollowsKey(before, v.cls, v.load);
        if v.cls.Transmittance? {
          TransmittanceOverwrites(before, v.cls, v.load);
        } else {
          ColorAppends(before, v.cls, v.load);
        }
      }
    }
  }
}

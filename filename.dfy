/** Classification of input file names (src/main.cpp, faceStrToUint and the
    read loop of main): the `.dds` extension test, the transmittance pattern
    `^(.*)_([+-][xyz])_tr.dds$` and the radiance-sample pattern
    `^(.*)_([+-][xyz])_(N)_(N)_(N).dds$` with N = `[+-]?(?:\d*\.\d+|\d+\.\d*|\d+)`,
    as RE2 matches them: `.` matches any character but a newline and `\d` is
    an ASCII digit. */
module FileName {
  import opened Wrappers

  // ---------------------------------------------------------------------------
  // Faces

  /** The keys of faceStrToUint's table, listed in the order of their indices. */
  const FaceNames: seq<string> := ["+x", "-x", "+y", "-y", "+z"]

  /** The KEYMAP table of faceStrToUint. */
  const FaceTable: map<string, nat> := map["+x" := 0, "-x" := 1, "+y" := 2, "-y" := 3, "+z" := 4]

  /** faceStrToUint: `KEYMAP.at(str)`. None stands for the std::out_of_range
      that `at` throws on a missing key. */
  function FaceStrToUint(s: string): (r: Option<nat>)
    ensures r.Some? <==> s in FaceNames
    ensures r.Some? ==> r.value < |FaceNames| && FaceNames[r.value] == s
  {
    if s in FaceTable then Some(FaceTable[s]) else None
  }

  /** The face group `[+-][xyz]` shared by both patterns. */
  predicate IsFaceStr(s: string) {
    |s| == 2 && (s[0] == '+' || s[0] == '-') && (s[1] == 'x' || s[1] == 'y' || s[1] == 'z')
  }

  /** Each of the five faces maps back to its own index. */
  lemma FaceNamesRoundTrip(i: nat)
    requires i < |FaceNames|
    ensures IsFaceStr(FaceNames[i]) && FaceStrToUint(FaceNames[i]) == Some(i)
  {
  }

  /** The patterns accept six face strings but the table holds five: `-z` is
      the one string the patterns accept and faceStrToUint throws on. */
  lemma FaceLookupFailsOnlyForMinusZ(s: string)
    ensures IsFaceStr(s) ==> (FaceStrToUint(s).None? <==> s == "-z")
  {
    if IsFaceStr(s) {
      assert s == [s[0], s[1]];
    }
  }

  // ---------------------------------------------------------------------------
  // Characters and positions

  predicate IsDigit(c: char) {
    '0' <= c <= '9'
  }

  predicate AllDigits(s: string) {
    forall i :: 0 <= i < |s| ==> IsDigit(s[i])
  }

  /** `(.*)` under RE2's default options: any characters except a newline. */
  predicate NoNewline(s: string) {
    '\n' !in s
  }

  /** The position of the last occurrence of `c` in `s`. */
  function LastIndexOf(s: string, c: char): (r: Option<nat>)
    ensures r.Some? ==> r.value < |s| && s[r.value] == c && c !in s[r.value + 1..]
    ensures r.None? ==> c !in s
  {
    if s == [] then None
    else if s[|s| - 1] == c then Some(|s| - 1)
    else
      var r := LastIndexOf(s[..|s| - 1], c);
      assert s == s[..|s| - 1] + [s[|s| - 1]];
      r
  }

  /** When `c` does not occur in `b`, the last `c` of `a + [c] + b` is the one
      between them. */
  lemma {:induction false} LastIndexOfJoin(a: string, c: char, b: string)
    requires c !in b
    ensures LastIndexOf(a + [c] + b, c) == Some(|a|)
    decreases |b|
  {
    var s := a + [c] + b;
    if b == [] {
      assert s == a + [c];
    } else {
      var shorter := b[..|b| - 1];
      assert s[..|s| - 1] == a + [c] + shorter;
      assert s[|s| - 1] == b[|b| - 1];
      assert c !in shorter by {
        forall i | 0 <= i < |shorter| ensures shorter[i] != c {
          assert shorter[i] == b[i];
        }
      }
      LastIndexOfJoin(a, c, shorter);
    }
  }

  // ---------------------------------------------------------------------------
  // The extension test

  /** std::filesystem::path::extension() of a file name: from the last dot on,
      except for "." and "..", a name without a dot, and a name whose only
      dot is its first character. */
  function Extension(f: string): (r: string)
    ensures r != [] ==> && 1 < |f| && |r| < |f| && r == f[|f| - |r|..]
                        && r[0] == '.' && '.' !in r[1..]
  {
    if f == "." || f == ".." then ""
    else match LastIndexOf(f, '.')
      case None => ""
      case Some(i) => if i == 0 then "" else f[i..]
  }

  predicate HasDdsExtension(f: string) {
    Extension(f) == ".dds"
  }

  /** A file passes the extension test exactly when it ends in `.dds` with at
      least one character before the dot (so ".dds" itself fails). */
  lemma DdsExtensionIsSuffix(f: string)
    ensures HasDdsExtension(f) <==> 5 <= |f| && f[|f| - 4..] == ".dds"
  {
    if 5 <= |f| && f[|f| - 4..] == ".dds" { DdsSuffixPasses(f); }
    if HasDdsExtension(f) { PassingNameEndsInDds(f); }
  }

  lemma DdsSuffixPasses(f: string)
    requires 5 <= |f| && f[|f| - 4..] == ".dds"
    ensures HasDdsExtension(f)
  {
    assert f == f[..|f| - 4] + ['.'] + "dds";
    LastIndexOfJoin(f[..|f| - 4], '.', "dds");
    assert f != "." && f != "..";
  }

  lemma PassingNameEndsInDds(f: string)
    requires HasDdsExtension(f)
    ensures 5 <= |f| && f[|f| - 4..] == ".dds"
  {
    assert f != "." && f != "..";
    var i := LastIndexOf(f, '.').value;
    assert 0 < i && f[i..] == ".dds";
    assert |f| - i == 4;
  }

  // ---------------------------------------------------------------------------
  // Number tokens

  /** `\d*\.\d+ | \d+\.\d* | \d+`, one alternative per line; k is the dot. */
  ghost predicate UnsignedNumberPattern(u: string) {
    || (exists k :: 0 <= k < |u| && u[k] == '.' && AllDigits(u[..k]) && AllDigits(u[k + 1..]) && k + 1 < |u|)
    || (exists k :: 0 <= k < |u| && u[k] == '.' && AllDigits(u[..k]) && AllDigits(u[k + 1..]) && 0 < k)
    || (0 < |u| && AllDigits(u))
  }

  /** `[+-]?(?:\d*\.\d+|\d+\.\d*|\d+)` */
  ghost predicate NumberPattern(s: string) {
    || UnsignedNumberPattern(s)
    || (0 < |s| && (s[0] == '+' || s[0] == '-') && UnsignedNumberPattern(s[1..]))
  }

  /** States of a hand-written automaton for the number token. */
  datatype ScanState =
    | Start          // nothing read
    | AfterSign      // read the sign
    | IntDigits      // read one or more digits, no dot
    | LeadingDot     // read a dot with no digit before it
    | DotAfterDigits // read digits, then a dot
    | FracDigits     // read a dot, then one or more digits

  function Next(q: ScanState, c: char): Option<ScanState> {
    match q
    case Start =>
      if c == '+' || c == '-' then Some(AfterSign)
      else if IsDigit(c) then Some(IntDigits) else if c == '.' then Some(LeadingDot) else None
    case AfterSign =>
      if IsDigit(c) then Some(IntDigits) else if c == '.' then Some(LeadingDot) else None
    case IntDigits =>
      if IsDigit(c) then Some(IntDigits) else if c == '.' then Some(DotAfterDigits) else None
    case LeadingDot =>
      if IsDigit(c) then Some(FracDigits) else None
    case DotAfterDigits =>
      if IsDigit(c) then Some(FracDigits) else None
    case FracDigits =>
      if IsDigit(c) then Some(FracDigits) else None
  }

  predicate Accepting(q: ScanState) {
    q == IntDigits || q == DotAfterDigits || q == FracDigits
  }

  function Scan(q: ScanState, s: string): bool
    decreases |s|
  {
    if s == [] then Accepting(q)
    else match Next(q, s[0])
      case None => false
      case Some(q') => Scan(q', s[1..])
  }

  /** The matcher for one number token. */
  function IsNumberToken(s: string): bool {
    Scan(Start, s)
  }

  /** Some position k splits `s` into digits, a dot and digits. */
  ghost predicate DotSplit(s: string) {
    exists k :: 0 <= k < |s| && s[k] == '.' && AllDigits(s[..k]) && AllDigits(s[k + 1..])
  }

  lemma AllDigitsCons(s: string)
    requires s != []
    ensures AllDigits(s) <==> IsDigit(s[0]) && AllDigits(s[1..])
  {
    if IsDigit(s[0]) && AllDigits(s[1..]) {
      forall i | 0 <= i < |s| ensures IsDigit(s[i]) {
        if i > 0 { assert s[i] == s[1..][i - 1]; }
      }
    }
  }

  lemma {:induction false} ScanFrac(s: string)
    ensures Scan(FracDigits, s) <==> AllDigits(s)
  {
    if s != [] {
      ScanFrac(s[1..]);
      AllDigitsCons(s);
    }
  }

  lemma ScanAfterDot(s: string)
    ensures Scan(DotAfterDigits, s) <==> AllDigits(s)
    ensures Scan(LeadingDot, s) <==> 0 < |s| && AllDigits(s)
  {
    if s != [] {
      ScanFrac(s[1..]);
      AllDigitsCons(s);
    }
  }

  /** After a digit has been read, the rest splits only at the one dot. */
  lemma DotSplitCons(s: string)
    requires s != []
    ensures IsDigit(s[0]) ==> (DotSplit(s) <==> DotSplit(s[1..]))
    ensures s[0] == '.' ==> (DotSplit(s) <==> AllDigits(s[1..]))
    ensures !IsDigit(s[0]) && s[0] != '.' ==> !DotSplit(s)
  {
    if DotSplit(s) {
      var k :| 0 <= k < |s| && s[k] == '.' && AllDigits(s[..k]) && AllDigits(s[k + 1..]);
      if k > 0 {
        assert s[..k][0] == s[0];
        assert s[1..][k - 1] == '.' && s[1..][..k - 1] == s[1..k] && s[1..][k..] == s[k + 1..];
        assert s[1..k] == s[..k][1..];
        AllDigitsCons(s[..k]);
      }
    }
    if IsDigit(s[0]) && DotSplit(s[1..]) {
      var t := s[1..];
      var k :| 0 <= k < |t| && t[k] == '.' && AllDigits(t[..k]) && AllDigits(t[k + 1..]);
      assert s[..k + 1] == [s[0]] + t[..k];
      AllDigitsCons(s[..k + 1]);
      assert s[k + 1] == '.' && s[k + 2..] == t[k + 1..];
    }
    if s[0] == '.' && AllDigits(s[1..]) {
      assert AllDigits(s[..0]);
    }
  }

  lemma {:induction false} ScanInt(s: string)
    ensures Scan(IntDigits, s) <==> AllDigits(s) || DotSplit(s)
  {
    if s != [] {
      AllDigitsCons(s);
      DotSplitCons(s);
      if IsDigit(s[0]) {
        ScanInt(s[1..]);
      } else if s[0] == '.' {
        ScanAfterDot(s[1..]);
      }
    }
  }

  lemma ScanAfterSign(u: string)
    ensures Scan(AfterSign, u) <==> UnsignedNumberPattern(u)
  {
    if u != [] {
      AllDigitsCons(u);
      DotSplitCons(u);
      if IsDigit(u[0]) {
        ScanInt(u[1..]);
        if UnsignedNumberPattern(u) && !AllDigits(u) {
          // either dotted alternative splits u at a dot after the first digit
          assert DotSplit(u);
        }
        if DotSplit(u) {
          var k :| 0 <= k < |u| && u[k] == '.' && AllDigits(u[..k]) && AllDigits(u[k + 1..]);
          assert k != 0;
        }
      } else if u[0] == '.' {
        ScanAfterDot(u[1..]);
        if UnsignedNumberPattern(u) {
          assert !AllDigits(u);
          var k :| 0 <= k < |u| && u[k] == '.' && AllDigits(u[..k]) && AllDigits(u[k + 1..]);
        }
        if 1 < |u| && AllDigits(u[1..]) {
          assert AllDigits(u[..0]) && u[0 + 1..] == u[1..];
        }
      } else {
        if UnsignedNumberPattern(u) {
          assert !AllDigits(u);
          assert DotSplit(u);
        }
      }
    }
  }

  /** The automaton accepts exactly the strings of the number pattern. */
  lemma NumberTokenCorrect(s: string)
    ensures IsNumberToken(s) <==> NumberPattern(s)
  {
    if s != [] && (s[0] == '+' || s[0] == '-') {
      ScanAfterSign(s[1..]);
      ScanAfterSign(s);
    } else {
      ScanAfterSign(s);
      if s != [] {
        assert Next(Start, s[0]) == Next(AfterSign, s[0]);
      }
    }
  }

  /** A number token is built from signs, digits and dots only, and ends in a
      digit or a dot: in particular it holds no underscore and is never "tr". */
  lemma NumberPatternShape(s: string)
    requires NumberPattern(s)
    ensures 0 < |s| && '_' !in s && (IsDigit(s[|s| - 1]) || s[|s| - 1] == '.')
  {
    var u := if UnsignedNumberPattern(s) then s else s[1..];
    UnsignedShape(u);
    assert u[|u| - 1] == s[|s| - 1];
    forall i | 0 <= i < |s| ensures s[i] != '_' {
      if u != s && i > 0 { assert s[i] == u[i - 1]; }
    }
  }

  /** An unsigned number token is digits and dots only. */
  lemma UnsignedShape(u: string)
    requires UnsignedNumberPattern(u)
    ensures 0 < |u| && forall i :: 0 <= i < |u| ==> IsDigit(u[i]) || u[i] == '.'
  {
    if !AllDigits(u) {
      assert DotSplit(u);
      DotSplitChars(u);
    }
  }

  lemma DotSplitChars(u: string)
    requires DotSplit(u)
    ensures forall i :: 0 <= i < |u| ==> IsDigit(u[i]) || u[i] == '.'
  {
    var k :| 0 <= k < |u| && u[k] == '.' && AllDigits(u[..k]) && AllDigits(u[k + 1..]);
    forall i | 0 <= i < |u| ensures IsDigit(u[i]) || u[i] == '.' {
      if i < k { assert u[i] == u[..k][i]; }
      else if i > k { assert u[i] == u[k + 1..][i - k - 1]; }
    }
  }

  lemma TrIsNotANumber()
    ensures !NumberPattern("tr")
  {
    if NumberPattern("tr") { NumberPatternShape("tr"); }
  }

  // ---------------------------------------------------------------------------
  // The two filename patterns

  /** `^(.*)_([+-][xyz])_tr.dds$` with the given captures; `any` is the
      character matched by the unescaped `.` ahead of `dds`. */
  ghost predicate TrPattern(name: string, identifier: string, faceStr: string, any: char) {
    && NoNewline(identifier) && IsFaceStr(faceStr) && any != '\n'
    && name == identifier + "_" + faceStr + "_tr" + [any] + "dds"
  }

  /** The radiance-sample pattern with the given captures. */
  ghost predicate ColorPattern(name: string, identifier: string, faceStr: string,
                               x: string, y: string, z: string, any: char) {
    && NoNewline(identifier) && IsFaceStr(faceStr) && any != '\n'
    && NumberPattern(x) && NumberPattern(y) && NumberPattern(z)
    && name == identifier + "_" + faceStr + "_" + x + "_" + y + "_" + z + [any] + "dds"
  }

  datatype TrCapture = TrCapture(identifier: string, faceStr: string)

  datatype ColorCapture = ColorCapture(identifier: string, faceStr: string, x: string, y: string, z: string)

  /** The transmittance pattern fixes the last ten characters, so the
      identifier is everything before them. */
  function MatchTr(name: string): (r: Option<TrCapture>)
    ensures r.Some? ==> 10 <= |name| && TrPattern(name, r.value.identifier, r.value.faceStr, name[|name| - 4])
  {
    if |name| < 10 then None
    else
      var n := |name|;
      var identifier, faceStr := name[..n - 10], name[n - 9..n - 7];
      if && name[n - 10] == '_' && IsFaceStr(faceStr) && name[n - 7..n - 4] == "_tr"
         && name[n - 4] != '\n' && name[n - 3..] == "dds" && NoNewline(identifier)
      then
        assert name == identifier + "_" + faceStr + "_tr" + [name[n - 4]] + "dds";
        Some(TrCapture(identifier, faceStr))
      else None
  }

  /** Every decomposition of a name by the transmittance pattern is the one
      MatchTr finds. */
  lemma MatchTrComplete(name: string, identifier: string, faceStr: string, any: char)
    requires TrPattern(name, identifier, faceStr, any)
    ensures MatchTr(name) == Some(TrCapture(identifier, faceStr))
  {
    var n := |name|;
    assert name[..n - 10] == identifier;
    assert name[n - 9..n - 7] == faceStr;
    assert name[n - 7..n - 4] == "_tr";
    assert name[n - 3..] == "dds";
  }

  /** Splits `s` at its last underscore. */
  function SplitLastUnderscore(s: string): (r: Option<(string, string)>)
    ensures r.Some? ==> s == r.value.0 + "_" + r.value.1 && '_' !in r.value.1
    ensures r.None? ==> '_' !in s
  {
    match LastIndexOf(s, '_')
    case None => None
    case Some(i) =>
      assert s == s[..i] + "_" + s[i + 1..];
      Some((s[..i], s[i + 1..]))
  }

  lemma SplitLastUnderscoreJoin(a: string, b: string)
    requires '_' !in b
    ensures SplitLastUnderscore(a + "_" + b) == Some((a, b))
  {
    LastIndexOfJoin(a, '_', b);
    assert (a + "_" + b)[..|a|] == a;
    assert (a + "_" + b)[|a| + 1..] == b;
  }

  /** The four captures that end `body`, found from the right: the last four
      underscores separate them and the identifier is everything before. */
  function SplitCaptures(body: string): (r: Option<ColorCapture>)
    ensures r.Some? ==>
              && body == r.value.identifier + "_" + r.value.faceStr + "_" + r.value.x + "_" + r.value.y + "_" + r.value.z
              && '_' !in r.value.faceStr && '_' !in r.value.x && '_' !in r.value.y && '_' !in r.value.z
  {
    match SplitLastUnderscore(body)
    case None => None
    case Some((rest3, z)) =>
      match SplitLastUnderscore(rest3)
      case None => None
      case Some((rest2, y)) =>
        match SplitLastUnderscore(rest2)
        case None => None
        case Some((rest1, x)) =>
          match SplitLastUnderscore(rest1)
          case None => None
          case Some((identifier, faceStr)) => Some(ColorCapture(identifier, faceStr, x, y, z))
  }

  lemma SplitCapturesJoin(identifier: string, faceStr: string, x: string, y: string, z: string)
    requires '_' !in faceStr && '_' !in x && '_' !in y && '_' !in z
    ensures SplitCaptures(identifier + "_" + faceStr + "_" + x + "_" + y + "_" + z)
         == Some(ColorCapture(identifier, faceStr, x, y, z))
  {
    var rest1 := identifier + "_" + faceStr;
    var rest2 := rest1 + "_" + x;
    var rest3 := rest2 + "_" + y;
    SplitLastUnderscoreJoin(rest3, z);
    SplitLastUnderscoreJoin(rest2, y);
    SplitLastUnderscoreJoin(rest1, x);
    SplitLastUnderscoreJoin(identifier, faceStr);
  }

  /** The checks MatchColor makes on the captures, in matcher terms. */
  predicate CapturesWellFormed(c: ColorCapture) {
    && IsFaceStr(c.faceStr) && NoNewline(c.identifier)
    && IsNumberToken(c.x) && IsNumberToken(c.y) && IsNumberToken(c.z)
  }

  /** A string is what comes before position i, the character there, and
      what follows. */
  lemma AroundIndex(s: string, i: nat)
    requires i < |s|
    ensures s == s[..i] + [s[i]] + s[i + 1..]
  {
  }

  lemma CapturesSpellName(name: string, c: ColorCapture)
    requires 4 <= |name| && name[|name| - 3..] == "dds"
    requires SplitCaptures(name[..|name| - 4]) == Some(c)
    ensures name == c.identifier + "_" + c.faceStr + "_" + c.x + "_" + c.y + "_" + c.z + [name[|name| - 4]] + "dds"
  {
    BodyDotExtension(name, c.identifier + "_" + c.faceStr + "_" + c.x + "_" + c.y + "_" + c.z);
  }

  lemma BodyDotExtension(name: string, body: string)
    requires 4 <= |name| && name[|name| - 3..] == "dds" && name[..|name| - 4] == body
    ensures name == body + [name[|name| - 4]] + "dds"
  {
    AroundIndex(name, |name| - 4);
  }

  lemma MatchColorSound(name: string, c: ColorCapture)
    requires 4 <= |name| && name[|name| - 4] != '\n' && name[|name| - 3..] == "dds"
    requires SplitCaptures(name[..|name| - 4]) == Some(c) && CapturesWellFormed(c)
    ensures ColorPattern(name, c.identifier, c.faceStr, c.x, c.y, c.z, name[|name| - 4])
  {
    CapturesSpellName(name, c);
    NumberTokenCorrect(c.x);
    NumberTokenCorrect(c.y);
    NumberTokenCorrect(c.z);
  }

  /** Number tokens and the face hold no underscore, so the greedy `(.*)`
      has only one choice: everything before the last four underscores
      ahead of `.dds`. */
  function MatchColor(name: string): (r: Option<ColorCapture>)
    ensures r.Some? ==> && 4 <= |name|
                        && ColorPattern(name, r.value.identifier, r.value.faceStr,
                                        r.value.x, r.value.y, r.value.z, name[|name| - 4])
  {
    var n := |name|;
    if n < 4 || name[n - 4] == '\n' || name[n - 3..] != "dds" then None
    else match SplitCaptures(name[..n - 4])
      case None => None
      case Some(c) =>
        if CapturesWellFormed(c) then MatchColorSound(name, c); Some(c) else None
  }

  /** A name built as `body` + one character + "dds" gives its parts back. */
  lemma NameParts(name: string, body: string, any: char)
    requires name == body + [any] + "dds"
    ensures 4 <= |name| && name[..|name| - 4] == body && name[|name| - 4] == any && name[|name| - 3..] == "dds"
    ensures body != [] ==> name[|name| - 5] == body[|body| - 1]
  {
  }

  /** MatchColor accepts a name once its checks pass. */
  lemma MatchColorAccepts(name: string, c: ColorCapture)
    requires 4 <= |name| && name[|name| - 4] != '\n' && name[|name| - 3..] == "dds"
    requires SplitCaptures(name[..|name| - 4]) == Some(c) && CapturesWellFormed(c)
    ensures MatchColor(name) == Some(c)
  {
  }

  /** Every decomposition of a name by the radiance-sample pattern is the one
      MatchColor finds; in particular the decomposition is unique. */
  lemma MatchColorComplete(name: string, identifier: string, faceStr: string,
                           x: string, y: string, z: string, any: char)
    requires ColorPattern(name, identifier, faceStr, x, y, z, any)
    ensures MatchColor(name) == Some(ColorCapture(identifier, faceStr, x, y, z))
  {
    var c := ColorCapture(identifier, faceStr, x, y, z);
    var body := identifier + "_" + faceStr + "_" + x + "_" + y + "_" + z;
    assert CapturesWellFormed(c) && '_' !in faceStr && '_' !in x && '_' !in y && '_' !in z by {
      PatternCapturesWellFormed(identifier, faceStr, x, y, z);
    }
    assert 4 <= |name| && name[..|name| - 4] == body && name[|name| - 4] == any && name[|name| - 3..] == "dds" by {
      NameParts(name, body, any);
    }
    assert SplitCaptures(body) == Some(c) by {
      SplitCapturesJoin(identifier, faceStr, x, y, z);
    }
    MatchColorAccepts(name, c);
  }

  lemma PatternCapturesWellFormed(identifier: string, faceStr: string, x: string, y: string, z: string)
    requires NoNewline(identifier) && IsFaceStr(faceStr)
    requires NumberPattern(x) && NumberPattern(y) && NumberPattern(z)
    ensures CapturesWellFormed(ColorCapture(identifier, faceStr, x, y, z))
    ensures '_' !in faceStr && '_' !in x && '_' !in y && '_' !in z
  {
    NumberPatternShape(x);
    NumberPatternShape(y);
    NumberPatternShape(z);
    NumberTokenCorrect(x);
    NumberTokenCorrect(y);
    NumberTokenCorrect(z);
  }

  /** In a transmittance name the character before the extension is the
      `r` of `tr`. */
  lemma TrNameEndsInR(name: string)
    ensures MatchTr(name).Some? ==> 5 <= |name| && name[|name| - 5] == 'r'
  {
    if MatchTr(name).Some? {
      var t := MatchTr(name).value;
      NameParts(name, t.identifier + "_" + t.faceStr + "_tr", name[|name| - 4]);
    }
  }

  /** No name matches both patterns: in the transmittance pattern the
      character before `.dds` is the `r` of `tr`, in the other it ends a
      number token. */
  lemma PatternsDisjoint(name: string)
    ensures MatchColor(name).Some? ==> MatchTr(name).None?
  {
    TrNameEndsInR(name);
    if MatchColor(name).Some? {
      var c := MatchColor(name).value;
      NumberPatternShape(c.z);
      var prefix := c.identifier + "_" + c.faceStr + "_" + c.x + "_" + c.y + "_";
      var body := prefix + c.z;
      assert body[|body| - 1] == c.z[|c.z| - 1];
      NameParts(name, body, name[|name| - 4]);
    }
  }

  // ---------------------------------------------------------------------------
  // Classification of one directory entry's file name

  datatype NameClass =
    | WrongExtension                              // "Skipping {}"
    | NoMatch                                     // "does not match the naming pattern"
    | Transmittance(identifier: string, faceStr: string)
    | RadianceSample(identifier: string, faceStr: string, x: string, y: string, z: string)

  lemma DotJoins(prefix: string)
    ensures prefix + ['.'] + "dds" == prefix + ".dds"
    ensures prefix + "_tr" + ['.'] + "dds" == prefix + "_tr.dds"
  {
  }

  /** Behind the extension test the `.` ahead of `dds` matched a literal dot. */
  lemma TrCaptureSpellsName(name: string)
    requires HasDdsExtension(name) && MatchTr(name).Some?
    ensures var t := MatchTr(name).value; name == t.identifier + "_" + t.faceStr + "_tr.dds"
  {
    DdsExtensionIsSuffix(name);
    assert name[|name| - 4] == name[|name| - 4..][0] == '.';
    var t := MatchTr(name).value;
    DotJoins(t.identifier + "_" + t.faceStr);
  }

  lemma ColorCaptureSpellsName(name: string)
    requires HasDdsExtension(name) && MatchColor(name).Some?
    ensures var c := MatchColor(name).value;
            name == c.identifier + "_" + c.faceStr + "_" + c.x + "_" + c.y + "_" + c.z + ".dds"
  {
    DdsExtensionIsSuffix(name);
    assert name[|name| - 4] == name[|name| - 4..][0] == '.';
    var c := MatchColor(name).value;
    DotJoins(c.identifier + "_" + c.faceStr + "_" + c.x + "_" + c.y + "_" + c.z);
  }

  /** The extension test, then the transmittance pattern, then the
      radiance-sample pattern. */
  function Classify(name: string): (r: NameClass)
    ensures r.WrongExtension? <==> !HasDdsExtension(name)
    ensures r.NoMatch? ==> MatchTr(name).None? && MatchColor(name).None?
    ensures r.Transmittance? ==>
              && NoNewline(r.identifier) && IsFaceStr(r.faceStr)
              && name == r.identifier + "_" + r.faceStr + "_tr.dds"
    ensures r.RadianceSample? ==>
              && NoNewline(r.identifier) && IsFaceStr(r.faceStr)
              && NumberPattern(r.x) && NumberPattern(r.y) && NumberPattern(r.z)
              && name == r.identifier + "_" + r.faceStr + "_" + r.x + "_" + r.y + "_" + r.z + ".dds"
  {
    if !HasDdsExtension(name) then WrongExtension
    else match MatchTr(name)
      case Some(t) =>
        TrCaptureSpellsName(name);
        Transmittance(t.identifier, t.faceStr)
      case None =>
        match MatchColor(name)
        case Some(c) =>
          ColorCaptureSpellsName(name);
          RadianceSample(c.identifier, c.faceStr, c.x, c.y, c.z)
        case None => NoMatch
  }

  /** Every well-formed transmittance name is recognised with its captures;
      the identifier may be empty or hold underscores. */
  lemma ClassifyTransmittanceName(identifier: string, faceStr: string)
    requires NoNewline(identifier) && IsFaceStr(faceStr)
    ensures Classify(identifier + "_" + faceStr + "_tr.dds") == Transmittance(identifier, faceStr)
  {
    var name := identifier + "_" + faceStr + "_tr.dds";
    assert HasDdsExtension(name) && name[|name| - 4] == '.' by {
      var stem := identifier + "_" + faceStr + "_tr";
      assert name == stem + ".dds";
      DotExtension(name, stem);
    }
    assert MatchTr(name) == Some(TrCapture(identifier, faceStr)) by {
      assert name == identifier + "_" + faceStr + "_tr" + ['.'] + "dds";
      MatchTrComplete(name, identifier, faceStr, '.');
    }
  }

  /** Every well-formed radiance-sample name is recognised with its captures. */
  lemma ClassifyRadianceName(identifier: string, faceStr: string, x: string, y: string, z: string)
    requires NoNewline(identifier) && IsFaceStr(faceStr)
    requires NumberPattern(x) && NumberPattern(y) && NumberPattern(z)
    ensures Classify(identifier + "_" + faceStr + "_" + x + "_" + y + "_" + z + ".dds")
         == RadianceSample(identifier, faceStr, x, y, z)
  {
    var name := identifier + "_" + faceStr + "_" + x + "_" + y + "_" + z + ".dds";
    assert HasDdsExtension(name) && name[|name| - 4] == '.' by {
      var stem := identifier + "_" + faceStr + "_" + x + "_" + y + "_" + z;
      assert name == stem + ".dds";
      DotExtension(name, stem);
    }
    assert MatchColor(name) == Some(ColorCapture(identifier, faceStr, x, y, z)) by {
      assert name == identifier + "_" + faceStr + "_" + x + "_" + y + "_" + z + ['.'] + "dds";
      MatchColorComplete(name, identifier, faceStr, x, y, z, '.');
    }
    assert MatchTr(name).None? by { PatternsDisjoint(name); }
  }

  /** A name made of a non-empty stem and `.dds` passes the extension test. */
  lemma DotExtension(name: string, stem: string)
    requires stem != [] && name == stem + ".dds"
    ensures HasDdsExtension(name) && name[|name| - 4] == '.'
  {
    DdsExtensionIsSuffix(name);
    assert name[|name| - 4..] == ".dds";
  }

  /** A name classified as NoMatch has a `.dds` extension and no decomposition
      by either pattern. */
  lemma NoMatchMeansNeitherPattern(name: string)
    requires Classify(name).NoMatch?
    ensures HasDdsExtension(name)
    ensures forall identifier, faceStr, any :: !TrPattern(name, identifier, faceStr, any)
    ensures forall identifier, faceStr, x, y, z, any :: !ColorPattern(name, identifier, faceStr, x, y, z, any)
  {
    forall identifier, faceStr, any | TrPattern(name, identifier, faceStr, any) ensures false {
      MatchTrComplete(name, identifier, faceStr, any);
    }
    forall identifier, faceStr, x, y, z, any | ColorPattern(name, identifier, faceStr, x, y, z, any)
      ensures false
    {
      MatchColorComplete(name, identifier, faceStr, x, y, z, any);
    }
  }
}

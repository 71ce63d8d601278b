/** Relative paths: normalization, the path jail, hidden names, and the reversible alias
    under which a hidden name is stored on the server. */
module Paths {
  import opened Basics
  import opened Text

  /** Some component starts with a dot; a backslash separates components too. */
  predicate IsHidden(rel: string) {
    exists i :: 0 <= i < |rel| && rel[i] == '.' && (i == 0 || rel[i - 1] == '/' || rel[i - 1] == '\\')
  }

  // ---- aliases of hidden segments ------------------------------------------------

  const DOT_MARKER := "__jpdot__"

  function LeadingDots(seg: string): (n: nat)
    ensures n <= |seg| && (forall i :: 0 <= i < n ==> seg[i] == '.') && (n < |seg| ==> seg[n] != '.')
  {
    if seg != "" && seg[0] == '.' then 1 + LeadingDots(seg[1..]) else 0
  }

  function Dots(n: nat): (s: string)
    ensures |s| == n && forall i :: 0 <= i < n ==> s[i] == '.'
  {
    if n == 0 then "" else "." + Dots(n - 1)
  }

  function EncodeSegment(seg: string): string {
    if seg == "" || seg[0] != '.' then seg
    else DOT_MARKER + Decimal(LeadingDots(seg)) + "_" + seg[LeadingDots(seg)..]
  }

  function DigitRun(s: string): (n: nat)
    ensures n <= |s| && AllDigits(s[..n]) && (n < |s| ==> !IsDigit(s[n]))
  {
    if s != "" && IsDigit(s[0]) then
      var n := 1 + DigitRun(s[1..]);
      assert s[..n] == [s[0]] + s[1..][..n - 1];
      n
    else 0
  }

  /** The number and the rest of a segment of the form marker, digits, underscore, anything. */
  function AliasParts(seg: string): Option<(nat, string)> {
    if |seg| < |DOT_MARKER| || seg[..|DOT_MARKER|] != DOT_MARKER then None
    else
      var rest := seg[|DOT_MARKER|..];
      var n := DigitRun(rest);
      if n == 0 || n == |rest| || rest[n] != '_' then None
      else Some((Numeral(rest[..n]), rest[n + 1..]))
  }

  function DecodeSegment(seg: string): string {
    match AliasParts(seg)
    case None => seg
    case Some((n, rest)) => Dots(n) + rest
  }

  function NonEmpty(segs: seq<string>): (r: seq<string>)
    ensures forall x :: x in r <==> x in segs && x != ""
  {
    if segs == [] then []
    else if segs[0] == "" then NonEmpty(segs[1..])
    else [segs[0]] + NonEmpty(segs[1..])
  }

  function MapEncode(segs: seq<string>): (r: seq<string>)
    ensures |r| == |segs| && forall i :: 0 <= i < |r| ==> r[i] == EncodeSegment(segs[i])
  {
    seq(|segs|, i requires 0 <= i < |segs| => EncodeSegment(segs[i]))
  }

  function MapDecode(segs: seq<string>): (r: seq<string>)
    ensures |r| == |segs| && forall i :: 0 <= i < |r| ==> r[i] == DecodeSegment(segs[i])
  {
    seq(|segs|, i requires 0 <= i < |segs| => DecodeSegment(segs[i]))
  }

  function EncodeProtected(rel: string): string {
    Join(MapEncode(NonEmpty(Split(rel))))
  }

  function DecodeProtected(rel: string): string {
    Join(MapDecode(NonEmpty(Split(rel))))
  }

  lemma RunOfDecimal(n: nat, tail: string)
    requires tail != "" && !IsDigit(tail[0])
    ensures DigitRun(Decimal(n) + tail) == |Decimal(n)|
  {
    RunThrough(Decimal(n), tail);
  }

  lemma {:induction false} RunThrough(digits: string, tail: string)
    requires AllDigits(digits) && tail != "" && !IsDigit(tail[0])
    ensures DigitRun(digits + tail) == |digits|
  {
    if digits == "" {
      assert digits + tail == tail;
    } else {
      RunThrough(digits[1..], tail);
      assert (digits + tail)[1..] == digits[1..] + tail;
    }
  }

  lemma AliasOf(n: nat, tail: string)
    ensures AliasParts(DOT_MARKER + Decimal(n) + "_" + tail) == Some((n, tail))
  {
    hide Decimal, DigitRun, Numeral;
    var digits, behind := Decimal(n), "_" + tail;
    RunOfDecimal(n, behind);
    NumeralOfDecimal(n);
    var rest := digits + behind;
    assert DOT_MARKER + Decimal(n) + "_" + tail == DOT_MARKER + rest;
    assert (DOT_MARKER + rest)[..|DOT_MARKER|] == DOT_MARKER && (DOT_MARKER + rest)[|DOT_MARKER|..] == rest;
    assert rest[..|digits|] == digits && rest[|digits| + 1..] == tail;
  }

  /** A hidden segment comes back from its alias; any other segment that is not itself of
      alias form is its own. */
  lemma DecodeOfEncodeSegment(seg: string)
    requires AliasParts(seg) == None
    ensures DecodeSegment(EncodeSegment(seg)) == seg
  {
    if seg != "" && seg[0] == '.' {
      hide AliasParts;
      var n := LeadingDots(seg);
      AliasOf(n, seg[n..]);
      assert Dots(n) + seg[n..] == seg;
    }
  }

  /** Every segment is there, and none is an alias already. */
  predicate Plain(rel: string) {
    forall x :: x in Split(rel) ==> x != "" && AliasParts(x) == None
  }

  lemma {:induction false} NonEmptyIsAll(segs: seq<string>)
    requires forall x :: x in segs ==> x != ""
    ensures NonEmpty(segs) == segs
  {
    if segs != [] {
      assert segs[0] in segs && forall x :: x in segs[1..] ==> x in segs;
      NonEmptyIsAll(segs[1..]);
    }
  }

  lemma {:induction false} NonEmptyAppend(a: seq<string>, b: seq<string>)
    ensures NonEmpty(a + b) == NonEmpty(a) + NonEmpty(b)
  {
    if a == [] {
      assert a + b == b;
    } else {
      NonEmptyAppend(a[1..], b);
      assert (a + b)[1..] == a[1..] + b && (a + b)[0] == a[0];
      Regroup([a[0]], NonEmpty(a[1..]), NonEmpty(b));
    }
  }

  lemma EncodedSegment(seg: string)
    requires seg != "" && '/' !in seg
    ensures EncodeSegment(seg) != "" && '/' !in EncodeSegment(seg) && EncodeSegment(seg)[0] != '.'
    ensures '\\' !in seg ==> '\\' !in EncodeSegment(seg)
  {
    if seg[0] == '.' {
      var d := Decimal(LeadingDots(seg));
      assert forall c :: c in d ==> IsDigit(c);
      assert EncodeSegment(seg)[0] == DOT_MARKER[0];
    }
  }

  lemma EncodedSplit(rel: string)
    requires forall x :: x in Split(rel) ==> x != ""
    ensures Split(EncodeProtected(rel)) == MapEncode(Split(rel))
    ensures forall x :: x in Split(EncodeProtected(rel)) ==> x != "" && x[0] != '.'
  {
    var segs := Split(rel);
    NonEmptyIsAll(segs);
    forall i | 0 <= i < |segs|
      ensures EncodeSegment(segs[i]) != "" && '/' !in EncodeSegment(segs[i]) && EncodeSegment(segs[i])[0] != '.'
    {
      assert segs[i] in segs;
      EncodedSegment(segs[i]);
    }
    SplitOfJoin(MapEncode(segs));
  }

  /** Decoding undoes encoding. */
  lemma DecodeOfEncode(rel: string)
    requires Plain(rel)
    ensures DecodeProtected(EncodeProtected(rel)) == rel
  {
    var segs := Split(rel);
    EncodedSplit(rel);
    NonEmptyIsAll(MapEncode(segs));
    forall i | 0 <= i < |segs| ensures MapDecode(MapEncode(segs))[i] == segs[i] {
      assert segs[i] in segs;
      DecodeOfEncodeSegment(segs[i]);
    }
    assert MapDecode(MapEncode(segs)) == segs;
    JoinOfSplit(rel);
  }

  lemma {:induction false} NonEmptyShortens(segs: seq<string>)
    ensures |NonEmpty(segs)| <= |segs|
    ensures |NonEmpty(segs)| == |segs| ==> NonEmpty(segs) == segs
  {
    if segs != [] {
      NonEmptyShortens(segs[1..]);
    }
  }

  lemma DecodedSegment(seg: string)
    requires '/' !in seg
    ensures '/' !in DecodeSegment(seg)
    ensures AliasParts(seg).Some? ==> EncodeSegment(seg) == seg && DecodeSegment(seg) != seg
  {
    hide Numeral, DigitRun;
    if AliasParts(seg).Some? {
      var (n, tail) := AliasParts(seg).value;
      assert seg[0] == DOT_MARKER[0];
      assert forall c :: c in tail ==> c in seg;
      assert n > 0 ==> (Dots(n) + tail)[0] == '.';
    }
  }

  /** What encoding and decoding make of any path: segment by segment, empty ones dropped. */
  lemma DecodedSplit(rel: string)
    requires NonEmpty(Split(rel)) != []
    ensures Split(DecodeProtected(EncodeProtected(rel))) == MapDecode(MapEncode(NonEmpty(Split(rel))))
  {
    var segs := NonEmpty(Split(rel));
    var enc := MapEncode(segs);
    forall i | 0 <= i < |segs| ensures enc[i] != "" && '/' !in enc[i] && '/' !in DecodeSegment(enc[i]) {
      assert segs[i] in segs;
      EncodedSegment(segs[i]);
      DecodedSegment(enc[i]);
    }
    SplitOfJoin(enc);
    NonEmptyIsAll(enc);
    SplitOfJoin(MapDecode(enc));
  }

  lemma KeptIsPlain(rel: string)
    requires NonEmpty(Split(rel)) != [] && DecodeProtected(EncodeProtected(rel)) == rel
    ensures Plain(rel)
  {
    hide EncodeProtected, DecodeProtected, Split, AliasParts, EncodeSegment, DecodeSegment;
    var segs := NonEmpty(Split(rel));
    NonEmptyShortens(Split(rel));
    DecodedSplit(rel);
    assert segs == Split(rel);
    forall i | 0 <= i < |segs| ensures segs[i] != "" && AliasParts(segs[i]) == None {
      assert segs[i] in segs;
      DecodedSegment(segs[i]);
      assert MapDecode(MapEncode(segs))[i] == DecodeSegment(EncodeSegment(segs[i]));
    }
  }

  /** Decoding undoes encoding exactly for the paths without empty segments and without segments
      that already have the form of an alias. */
  lemma RoundTripsExactly(rel: string)
    requires rel != ""
    ensures DecodeProtected(EncodeProtected(rel)) == rel <==> Plain(rel)
  {
    if Plain(rel) {
      DecodeOfEncode(rel);
    } else if NonEmpty(Split(rel)) == [] {
      SplitLast("");
      assert [""][1..] == [];
      assert EncodeProtected(rel) == "" && DecodeProtected("") == "";
    } else if DecodeProtected(EncodeProtected(rel)) == rel {
      KeptIsPlain(rel);
    }
  }

  /** ... so two paths never share a name on the server. */
  lemma EncodeIsInjective(a: string, b: string)
    requires Plain(a) && Plain(b) && EncodeProtected(a) == EncodeProtected(b)
    ensures a == b
  {
    DecodeOfEncode(a);
    DecodeOfEncode(b);
  }

  /** A hidden name is stored as the marker, the number of its dots, an underscore, and the rest. */
  lemma AliasForm(n: nat, rest: string)
    requires n > 0 && (rest != "" ==> rest[0] != '.')
    ensures EncodeSegment(Dots(n) + rest) == "__jpdot__" + Decimal(n) + "_" + rest
  {
    var seg := Dots(n) + rest;
    hide Decimal;
    assert forall i :: 0 <= i < n ==> seg[i] == Dots(n)[i];
    assert n < |seg| ==> seg[n] == rest[0];
    assert LeadingDots(seg) == n && seg[n..] == rest;
  }

  /** A file literally named like an alias is not told apart from the hidden file. */
  lemma LiteralAliasCollides(seg: string)
    requires seg != "" && seg[0] == '.' && '/' !in seg
    ensures EncodeSegment(seg) != seg && EncodeProtected(EncodeSegment(seg)) == EncodeProtected(seg)
  {
    EncodedSegment(seg);
    SingleSegment(seg);
    SingleSegment(EncodeSegment(seg));
  }

  lemma SingleSegment(s: string)
    requires s != "" && '/' !in s
    ensures EncodeProtected(s) == EncodeSegment(s)
  {
    SplitLast(s);
    NonEmptyIsAll([s]);
    assert MapEncode([s]) == [EncodeSegment(s)];
  }

  // ---- normalization ---------------------------------------------------------------

  function Unbackslash(s: string): (r: string)
    ensures |r| == |s| && forall i :: 0 <= i < |s| ==> r[i] == if s[i] == '\\' then '/' else s[i]
  {
    seq(|s|, i requires 0 <= i < |s| => if s[i] == '\\' then '/' else s[i])
  }

  predicate IsLetter(c: char) {
    'a' <= c <= 'z' || 'A' <= c <= 'Z'
  }

  predicate LooksWindowsAbsolute(raw: string) {
    || (|raw| >= 2 && raw[1] == ':' && IsLetter(raw[0]))
    || (|raw| >= 2 && raw[0] == raw[1] && (raw[0] == '\\' || raw[0] == '/'))
  }

  /** posixpath.normpath on a relative path: the components that survive. */
  function Collapse(segs: seq<string>, done: seq<string>): seq<string>
    decreases |segs|
  {
    if segs == [] then done
    else
      var s := segs[0];
      if s == "" || s == "." then Collapse(segs[1..], done)
      else if s != ".." || done == [] || done[|done| - 1] == ".." then Collapse(segs[1..], done + [s])
      else Collapse(segs[1..], done[..|done| - 1])
  }

  function Normpath(path: string): string {
    var segs := Collapse(Split(path), []);
    if segs == [] then "." else Join(segs)
  }

  /** Every component names something below: none is empty, "." or "..". */
  predicate CleanSegments(segs: seq<string>) {
    segs != [] && forall x :: x in segs ==> x != "" && x != "." && x != ".."
  }

  datatype PathError = EmptyPath | HasNul | Absolute | IsRoot | Climbs | Malformed

  function NormalizeRel(rel: string): Result<string, PathError> {
    var raw := Strip(rel);
    var unified := Unbackslash(raw);
    if raw == "" then Err(EmptyPath)
    else if '\0' in raw then Err(HasNul)
    else if unified[0] == '/' || LooksWindowsAbsolute(raw) then Err(Absolute)
    else
      var collapsed := Normpath(unified);
      if collapsed == "." || collapsed == "" then Err(IsRoot)
      else
        var parts := Split(collapsed);
        if parts[0] == ".." || ".." in parts then Err(Climbs)
        else if "" in parts then Err(Malformed)
        else Ok(collapsed)
  }

  /** Components as normpath leaves them: none is empty or ".", and ".." stands only in front. */
  predicate Collapsed(segs: seq<string>) {
    && (forall x :: x in segs ==> x != "" && x != "." && '/' !in x)
    && (forall i, j :: 0 <= i < j < |segs| && segs[j] == ".." ==> segs[i] == "..")
  }

  lemma {:induction false} CollapseCollapses(segs: seq<string>, done: seq<string>)
    requires Collapsed(done) && forall x :: x in segs ==> '/' !in x
    ensures Collapsed(Collapse(segs, done))
    decreases |segs|
  {
    if segs != [] {
      var s := segs[0];
      assert s in segs && forall x :: x in segs[1..] ==> x in segs;
      if s == "" || s == "." {
        CollapseCollapses(segs[1..], done);
      } else if s != ".." || done == [] || done[|done| - 1] == ".." {
        CollapseCollapses(segs[1..], done + [s]);
      } else {
        CollapseCollapses(segs[1..], done[..|done| - 1]);
      }
    }
  }

  /** The components of a path in normal form; the current directory has none. */
  lemma NormpathSplit(path: string)
    ensures
      var segs := Collapse(Split(path), []);
      && Collapsed(segs)
      && if segs == [] then Normpath(path) == "." else Split(Normpath(path)) == segs && Normpath(path) !in ["", "."]
  {
    var segs := Collapse(Split(path), []);
    CollapseCollapses(Split(path), []);
    if segs != [] {
      SplitOfJoin(segs);
      SplitLast("");
      SplitLast(".");
      assert segs[0] in segs;
    }
  }

  /** Going down and up from `depth` levels below the base, some ".." is met at the base itself. */
  predicate LeavesBase(segs: seq<string>, depth: nat)
    decreases |segs|
  {
    segs != [] &&
    if segs[0] == "" || segs[0] == "." then LeavesBase(segs[1..], depth)
    else if segs[0] == ".." then depth == 0 || LeavesBase(segs[1..], depth - 1)
    else LeavesBase(segs[1..], depth + 1)
  }

  lemma {:induction false} OnceOutside(segs: seq<string>, done: seq<string>)
    requires done != [] && done[0] == ".."
    ensures Collapse(segs, done) != [] && Collapse(segs, done)[0] == ".."
    decreases |segs|
  {
    if segs != [] {
      var s := segs[0];
      if s == "" || s == "." {
        OnceOutside(segs[1..], done);
      } else if s != ".." || done[|done| - 1] == ".." {
        OnceOutside(segs[1..], done + [s]);
      } else {
        OnceOutside(segs[1..], done[..|done| - 1]);
      }
    }
  }

  /** The normal form begins with ".." exactly if the path leaves its base somewhere on the way. */
  lemma {:induction false} CollapseClimbs(segs: seq<string>, done: seq<string>)
    requires ".." !in done
    ensures
      var c := Collapse(segs, done);
      LeavesBase(segs, |done|) <==> c != [] && c[0] == ".."
    decreases |segs|
  {
    if segs == [] {
      assert done != [] ==> done[0] in done;
    } else {
      var s := segs[0];
      if s == "" || s == "." {
        CollapseClimbs(segs[1..], done);
      } else if s != ".." {
        CollapseClimbs(segs[1..], done + [s]);
      } else if done == [] {
        OnceOutside(segs[1..], [".."]);
        assert done + [s] == [".."];
      } else {
        assert done[|done| - 1] in done;
        CollapseClimbs(segs[1..], done[..|done| - 1]);
      }
    }
  }

  /** Nothing but a path is refused: it is not empty, absolute, or with a NUL. */
  predicate Relative(rel: string) {
    var raw := Strip(rel);
    raw != "" && '\0' !in raw && Unbackslash(raw)[0] != '/' && !LooksWindowsAbsolute(raw)
  }

  /** Whatever is given, a path that is accepted stays below its base: no component is empty, "."
      or "..". A relative path is refused for climbing exactly if it leaves its base somewhere on the
      way, which is when its normal form begins with "..", and otherwise only for naming the base itself. */
  lemma NormalizedIsConfined(rel: string)
    ensures NormalizeRel(rel).Ok? ==> CleanSegments(Split(NormalizeRel(rel).value)) && NormalizeRel(rel).value[0] != '/'
    ensures NormalizeRel(rel) == Err(Climbs) <==> Relative(rel) && LeavesBase(Split(Unbackslash(Strip(rel))), 0)
    ensures NormalizeRel(rel) == Err(Climbs) <==> Relative(rel) && Split(Normpath(Unbackslash(Strip(rel))))[0] == ".."
    ensures Relative(rel) <==> NormalizeRel(rel).Ok? || NormalizeRel(rel).error in {IsRoot, Climbs}
  {
    hide Normpath, Collapse, Split, Strip, LooksWindowsAbsolute;
    var unified := Unbackslash(Strip(rel));
    var segs := Collapse(Split(unified), []);
    NormpathSplit(unified);
    CollapseClimbs(Split(unified), []);
    SplitLast(".");
    if segs != [] {
      assert ".." in segs ==> segs[0] == ".." by {
        if i :| 0 <= i < |segs| && segs[i] == ".." {
          assert i > 0 ==> segs[0] == "..";
        }
      }
      assert segs[0] in segs;
      JoinOfSplit(Normpath(unified));
      if ".." !in segs {
        FirstIsNotSlash(Normpath(unified));
      }
    }
  }

  lemma {:induction false} CollapseKeeps(segs: seq<string>, done: seq<string>)
    requires forall x :: x in segs ==> x != "" && x != "." && x != ".."
    ensures Collapse(segs, done) == done + segs
    decreases |segs|
  {
    if segs == [] {
      assert done + segs == done;
    } else {
      assert segs[0] in segs && forall x :: x in segs[1..] ==> x in segs;
      CollapseKeeps(segs[1..], done + [segs[0]]);
      assert done + [segs[0]] + segs[1..] == done + segs;
    }
  }

  lemma NormpathKeeps(path: string)
    requires CleanSegments(Split(path))
    ensures Normpath(path) == path
  {
    CollapseKeeps(Split(path), []);
    assert [] + Split(path) == Split(path);
    JoinOfSplit(path);
  }

  /** A path in normal form. */
  predicate Normal(rel: string) {
    && rel != "" && Strip(rel) == rel && '\0' !in rel && '\\' !in rel
    && !LooksWindowsAbsolute(rel) && CleanSegments(Split(rel))
  }

  lemma UnbackslashNothing(s: string)
    requires '\\' !in s
    ensures Unbackslash(s) == s
  {
  }

  lemma NormalIsFixed(rel: string)
    requires Normal(rel)
    ensures NormalizeRel(rel) == Ok(rel)
  {
    hide Split, Normpath, Strip, LooksWindowsAbsolute, Unbackslash;
    UnbackslashNothing(rel);
    NormpathKeeps(rel);
    FirstIsNotSlash(rel);
    SplitLast(".");
    assert rel == "." ==> "." in Split(rel);
    assert Split(rel)[0] in Split(rel);
  }

  lemma FirstIsNotSlash(s: string)
    requires s != "" && CleanSegments(Split(s))
    ensures s[0] != '/'
  {
    assert Split(s)[0] in Split(s);
  }

  // ---- the jail -----------------------------------------------------------------------

  function StripLeadingSlashes(s: string): string {
    if s != "" && s[0] == '/' then StripLeadingSlashes(s[1..]) else s
  }

  predicate PartAt(s: string, part: string, i: nat) {
    i + |part| <= |s| && s[i..i + |part|] == part
  }

  predicate Contains(s: string, part: string) {
    exists i: nat :: i <= |s| && PartAt(s, part, i)
  }

  /** The remote path in normal form if it lies strictly below the (normalized) prefix. */
  function AssertWithinPrefix(remotePath: string, prefix: string): Option<string> {
    var candidate := Normpath(StripLeadingSlashes(Unbackslash(Strip(remotePath))));
    if BeginsWith(candidate, "..") || Contains(candidate, "/..") then None
    else if !BeginsWith(candidate, prefix + "/") then None
    else Some(candidate)
  }

  /** The components of a remote path, dots collapsed. */
  function RemoteSegments(remotePath: string): seq<string> {
    Collapse(Split(StripLeadingSlashes(Unbackslash(Strip(remotePath)))), [])
  }

  /** The test on the text finds exactly the paths with a component that begins with two dots. */
  lemma {:induction false} DotsTest(c: string)
    ensures BeginsWith(c, "..") || Contains(c, "/..") <==> exists x :: x in Split(c) && BeginsWith(x, "..")
    decreases |c|
  {
    hide Split, FirstIndex;
    var i := FirstIndex(c, '/');
    SplitUnfolds(c);
    assert c[..i] + c[i..] == c;
    if i == |c| {
      assert forall k: nat :: k <= |c| ==> !PartAt(c, "/..", k) by {
        forall k: nat | k <= |c| ensures !PartAt(c, "/..", k) {
          assert k + 3 <= |c| ==> c[k..k + 3][0] == c[k];
        }
      }
    } else {
      var a, b := c[..i], c[i + 1..];
      DotsTest(b);
      FirstDots(c, i);
      LaterDots(c, i);
      assert forall x :: x in [a] + Split(b) <==> x == a || x in Split(b);
    }
  }

  lemma FirstDots(c: string, i: nat)
    requires i < |c| && c[i] == '/'
    ensures BeginsWith(c, "..") && i >= 2 ==> BeginsWith(c[..i], "..")
    ensures BeginsWith(c, "..") ==> i >= 2
    ensures BeginsWith(c[..i], "..") ==> BeginsWith(c, "..")
  {
    assert i >= 2 ==> c[..i][..2] == c[..2];
    assert |c| >= 2 && i < 2 ==> c[..2][i] == '/';
  }

  lemma LaterDots(c: string, i: nat)
    requires i < |c| && c[i] == '/' && forall k :: 0 <= k < i ==> c[k] != '/'
    ensures Contains(c, "/..") <==> BeginsWith(c[i + 1..], "..") || Contains(c[i + 1..], "/..")
  {
    var b := c[i + 1..];
    assert "/" + ".." == "/..";
    if BeginsWith(b, "..") || Contains(b, "/..") {
      ShiftPart(c, "..", i);
    }
    if Contains(c, "/..") {
      var k: nat :| k <= |c| && PartAt(c, "/..", k);
      assert c[k..k + 3][0] == c[k];
      if k == i {
        assert b[..2] == c[k..k + 3][1..];
      } else {
        assert b[k - i - 1..k - i + 2] == c[k..k + 3];
        assert PartAt(b, "/..", k - i - 1);
      }
    }
  }

  /** Beginning with the prefix and a slash is having the prefix's components, and more. */
  lemma BelowBySegments(c: string, prefix: string)
    ensures BeginsWith(c, prefix + "/") <==> Split(prefix) < Split(c)
  {
    hide Split, Join;
    if BeginsWith(c, prefix + "/") {
      var rest := c[|prefix| + 1..];
      assert c == prefix + "/" + rest;
      SplitBetween(prefix, rest);
    }
    if Split(prefix) < Split(c) {
      var more := Split(c)[|Split(prefix)|..];
      assert Split(c) == Split(prefix) + more;
      JoinAppend(Split(prefix), more);
      JoinOfSplit(prefix);
      JoinOfSplit(c);
      assert c[..|prefix| + 1] == prefix + "/";
    }
  }

  /** The jail lets exactly those paths through whose components extend those of the prefix, and of whose
      components none begins with two dots. What it lets through is the path in normal form: the prefix, a
      slash, and something more that does not climb out. */
  lemma JailConfines(remotePath: string, prefix: string)
    ensures
      var segs := RemoteSegments(remotePath);
      AssertWithinPrefix(remotePath, prefix).Some? <==>
      Split(prefix) < segs && forall x :: x in segs ==> !BeginsWith(x, "..")
    ensures AssertWithinPrefix(remotePath, prefix).Some? ==>
              var c := AssertWithinPrefix(remotePath, prefix).value;
              && Split(c) == RemoteSegments(remotePath) && Collapsed(Split(c)) && ".." !in Split(c)
              && |c| > |prefix| + 1 && c[..|prefix| + 1] == prefix + "/"
  {
    hide Split, Collapse, Strip, Unbackslash, StripLeadingSlashes, Contains, Normpath;
    var x := StripLeadingSlashes(Unbackslash(Strip(remotePath)));
    var c := Normpath(x);
    NormpathSplit(x);
    DotsTest(c);
    BelowBySegments(c, prefix);
    SplitLast(".");
    if AssertWithinPrefix(remotePath, prefix).Some? {
      NotSlashAlone(c, prefix);
    }
  }

  lemma SlashAtEnd(prefix: string)
    ensures "" in Split(prefix + "/")
  {
    hide Split;
    SplitBetween(prefix, "");
    SplitLast("");
    assert prefix + "/" + "" == prefix + "/";
    assert [""][0] in Split(prefix) + [""];
  }

  /** A path in normal form does not end in a slash. */
  lemma NotSlashAlone(c: string, prefix: string)
    requires BeginsWith(c, prefix + "/") && forall x :: x in Split(c) ==> x != ""
    ensures |c| > |prefix| + 1
  {
    SlashAtEnd(prefix);
    assert |c| == |prefix| + 1 ==> c == prefix + "/";
  }

  lemma ShiftPart(s: string, seg: string, i: nat)
    requires i < |s| && s[i] == '/' && (BeginsWith(s[i + 1..], seg) || Contains(s[i + 1..], "/" + seg))
    ensures Contains(s, "/" + seg)
  {
    var rest, part := s[i + 1..], "/" + seg;
    if BeginsWith(rest, seg) {
      assert s[i..i + 1 + |seg|] == [s[i]] + rest[..|seg|] == part;
      assert PartAt(s, part, i);
    } else {
      var k: nat :| k <= |rest| && PartAt(rest, part, k);
      assert s[i + 1 + k..i + 1 + k + |part|] == rest[k..k + |part|];
      assert PartAt(s, part, i + 1 + k);
    }
  }

  // ---- where push writes and where the remote walk finds it -----------------------------

  /** The server path of a file: under the protect policy hidden components go by their alias. */
  function WirePath(prefix: string, rel: string, protect: bool): Option<string> {
    match NormalizeRel(if protect then EncodeProtected(rel) else rel)
    case Err(_) => None
    case Ok(name) => Some(prefix + "/" + name)
  }

  /** The key under which the walk of the remote tree records a file found at `path`. */
  function WalkKey(path: string, prefix: string): Option<string> {
    match AssertWithinPrefix(path, prefix)
    case None => None
    case Some(inside) =>
      match NormalizeRel(inside[|prefix| + 1..])
      case Err(_) => None
      case Ok(name) =>
        if IsHidden(name) then None
        else
          match NormalizeRel(DecodeProtected(name))
          case Err(_) => None
          case Ok(key) => Some(key)
  }

  /** A prefix as validate_prefix leaves it. */
  predicate ValidPrefix(prefix: string) {
    Normal(prefix) && forall x :: x in Split(prefix) ==> x != "" && x[0] != '.'
  }

  lemma {:induction false} VisibleSegments(s: string)
    requires forall x :: x in Split(s) ==> x != "" && x[0] != '.'
    ensures forall i :: 0 <= i < |s| && s[i] == '.' ==> i > 0 && s[i - 1] != '/'
    decreases |s|
  {
    var i := FirstIndex(s, '/');
    assert Split(s)[0] in Split(s);
    if i < |s| {
      assert Split(s)[1..] == Split(s[i + 1..]);
      assert forall x :: x in Split(s)[1..] ==> x in Split(s);
      VisibleSegments(s[i + 1..]);
      assert forall k :: i + 1 <= k < |s| ==> s[k] == s[i + 1..][k - i - 1];
    }
  }

  lemma NotHidden(s: string)
    requires '\\' !in s && forall x :: x in Split(s) ==> x != "" && x[0] != '.'
    ensures !IsHidden(s) && !BeginsWith(s, "..") && !Contains(s, "/..")
  {
    VisibleSegments(s);
    hide Split;
    assert forall i :: 0 <= i < |s| ==> s[i] in s;
    assert |s| >= 2 ==> s[..2][0] == s[0];
    forall k: nat | k <= |s| ensures !PartAt(s, "/..", k) {
      assert k + 3 <= |s| ==> s[k] == s[k..k + 3][0] && s[k + 1] == s[k..k + 3][1];
    }
  }

  /** The encoded name is in normal form, unhidden, and differs at its ends only where a dot was. */
  lemma EncodedIsNormal(rel: string)
    requires Normal(rel) && Plain(rel)
    ensures Normal(EncodeProtected(rel)) && !IsHidden(EncodeProtected(rel))
  {
    var e := EncodeProtected(rel);
    EncodedSplit(rel);
    EncodedEnds(rel);
    EncodedChars(rel, '\\');
    EncodedChars(rel, '\0');
    StripClean(e);
    assert CleanSegments(Split(e));
    NotHidden(e);
  }

  lemma {:induction false} JoinChars(segs: seq<string>, c: char)
    requires c != '/' && forall x :: x in segs ==> c !in x
    ensures c !in Join(segs)
    decreases |segs|
  {
    if |segs| > 1 {
      assert segs[0] in segs && forall x :: x in segs[1..] ==> x in segs;
      JoinChars(segs[1..], c);
    } else if segs != [] {
      assert segs[0] in segs;
    }
  }

  lemma {:induction false} SplitChars(s: string, c: char)
    requires c !in s
    ensures forall x :: x in Split(s) ==> c !in x
    decreases |s|
  {
    var i := FirstIndex(s, '/');
    if i < |s| {
      SplitChars(s[i + 1..], c);
    }
  }

  lemma EncodeSegmentChars(seg: string, c: char)
    requires c !in seg && c !in DOT_MARKER && c != '_' && !IsDigit(c)
    ensures c !in EncodeSegment(seg)
  {
  }

  lemma EncodedChars(rel: string, c: char)
    requires (forall x :: x in Split(rel) ==> x != "") && c !in rel
    requires c != '/' && c !in DOT_MARKER && c != '_' && !IsDigit(c)
    ensures c !in EncodeProtected(rel)
  {
    var segs := Split(rel);
    NonEmptyIsAll(segs);
    SplitChars(rel, c);
    forall x | x in MapEncode(segs) ensures c !in x {
      var i :| 0 <= i < |segs| && x == EncodeSegment(segs[i]);
      assert segs[i] in segs;
      EncodeSegmentChars(segs[i], c);
    }
    JoinChars(MapEncode(segs), c);
  }

  lemma JoinFirst(segs: seq<string>)
    requires segs != [] && segs[0] != ""
    ensures var s := Join(segs);
            && |s| >= |segs[0]| && s[0] == segs[0][0]
            && (|s| > 1 ==> s[1] == if |segs[0]| > 1 then segs[0][1] else '/')
  {
  }

  lemma {:induction false} JoinLast(segs: seq<string>)
    requires segs != [] && segs[|segs| - 1] != ""
    ensures var s, l := Join(segs), segs[|segs| - 1];
            s != "" && s[|s| - 1] == l[|l| - 1]
    decreases |segs|
  {
    if |segs| > 1 {
      JoinLast(segs[1..]);
    }
  }

  /** What the first component says about the beginning of a path. */
  predicate StartsAs(s: string, seg: string) {
    && seg != "" && |s| >= |seg| && s[0] == seg[0]
    && (|s| > 1 ==> s[1] == if |seg| > 1 then seg[1] else '/')
  }

  lemma NoDriveFromEncoding(rel: string, e: string, a: string, x: string)
    requires StartsAs(rel, a) && StartsAs(e, x) && (x == a || x[0] == '_')
    requires !LooksWindowsAbsolute(rel) && !IsSpace(rel[0]) && a[0] != '/' && a[0] != '\\'
    ensures !LooksWindowsAbsolute(e) && !IsSpace(e[0])
  {
  }

  /** The ends of the encoded name are no blanks and it does not look like a drive. */
  lemma EncodedEnds(rel: string)
    requires Normal(rel)
    ensures
      var e := EncodeProtected(rel);
      e != "" && !IsSpace(e[0]) && !IsSpace(e[|e| - 1]) && !LooksWindowsAbsolute(e)
  {
    var segs := Split(rel);
    var n := |segs| - 1;
    NonEmptyIsAll(segs);
    assert segs[0] in segs && segs[n] in segs;
    StripEnds(rel);
    FirstIsNotSlash(rel);
    JoinOfSplit(rel);
    EndsOfEncoding(rel, segs);
  }

  lemma EndsOfEncoding(rel: string, segs: seq<string>)
    requires segs != [] && rel == Join(segs) && segs[0] != "" && segs[|segs| - 1] != ""
    requires rel != "" && rel[0] != '/' && '\\' !in rel && !LooksWindowsAbsolute(rel)
    requires !IsSpace(rel[0]) && !IsSpace(rel[|rel| - 1])
    ensures
      var e := Join(MapEncode(segs));
      e != "" && !IsSpace(e[0]) && !IsSpace(e[|e| - 1]) && !LooksWindowsAbsolute(e)
  {
    hide EncodeSegment, LooksWindowsAbsolute, IsSpace;
    var enc := MapEncode(segs);
    var n := |segs| - 1;
    EncodedSegmentEnds(segs[0]);
    EncodedSegmentEnds(segs[n]);
    JoinFirst(segs);
    JoinFirst(enc);
    JoinLast(segs);
    JoinLast(enc);
    assert rel[0] in rel;
    NoDriveFromEncoding(rel, Join(enc), segs[0], enc[0]);
    UnderscoreIsNoSpace();
  }

  lemma UnderscoreIsNoSpace()
    ensures !IsSpace('_')
  {
  }

  lemma StripEnds(s: string)
    requires s != "" && Strip(s) == s
    ensures !IsSpace(s[0]) && !IsSpace(s[|s| - 1])
  {
    StripLeftShortens(s);
    StripRightShortens(StripLeft(s));
  }

  lemma EncodedSegmentEnds(seg: string)
    requires seg != ""
    ensures
      var e := EncodeSegment(seg);
      && e != "" && (e == seg || e[0] == '_')
      && (e[|e| - 1] == seg[|seg| - 1] || e[|e| - 1] == '_')
  {
  }

  lemma SplitBetween(a: string, b: string)
    ensures Split(a + "/" + b) == Split(a) + Split(b)
  {
    JoinOfSplit(a);
    JoinOfSplit(b);
    JoinAppend(Split(a), Split(b));
    SplitOfJoin(Split(a) + Split(b));
  }

  lemma {:induction false} HiddenSegment(s: string, x: string)
    requires x in Split(s) && x != "" && x[0] == '.'
    ensures IsHidden(s)
    decreases |s|
  {
    var i := FirstIndex(s, '/');
    if i == |s| || x == s[..i] {
      assert s[0] == '.';
    } else {
      HiddenSegment(s[i + 1..], x);
      var k :| 0 <= k < |s[i + 1..]| && s[i + 1..][k] == '.'
        && (k == 0 || s[i + 1..][k - 1] == '/' || s[i + 1..][k - 1] == '\\');
      assert s[i + 1 + k] == '.' && (k == 0 || s[i + k] == s[i + 1..][k - 1]);
    }
  }

  lemma {:induction false} DotBeginsSegment(s: string, i: nat) returns (x: string)
    requires i < |s| && s[i] == '.' && (i == 0 || s[i - 1] == '/')
    ensures x in Split(s) && x != "" && x[0] == '.'
    decreases |s|
  {
    hide Split, FirstIndex;
    var n := FirstIndex(s, '/');
    SplitUnfolds(s);
    if i < n {
      x := s[..n];
      assert n == |s| ==> s[..n] == s;
      assert x == Split(s)[0] && i == 0;
    } else {
      x := DotBeginsSegment(s[n + 1..], i - n - 1);
      assert x in [s[..n]] + Split(s[n + 1..]);
    }
  }

  /** A path is hidden exactly if one of its components begins with a dot, whichever slash separates them. */
  lemma HiddenMeans(rel: string)
    ensures IsHidden(rel) <==> exists x :: x in Split(Unbackslash(rel)) && x != "" && x[0] == '.'
  {
    hide Split;
    var s := Unbackslash(rel);
    if IsHidden(rel) {
      var i :| 0 <= i < |rel| && rel[i] == '.' && (i == 0 || rel[i - 1] == '/' || rel[i - 1] == '\\');
      var x := DotBeginsSegment(s, i);
    }
    if x :| x in Split(s) && x != "" && x[0] == '.' {
      HiddenSegment(s, x);
      var i :| 0 <= i < |s| && s[i] == '.' && (i == 0 || s[i - 1] == '/' || s[i - 1] == '\\');
      assert rel[i] == '.' && (i == 0 || rel[i - 1] == '/' || rel[i - 1] == '\\');
    }
  }

  /** Encoding leaves a path without hidden components alone. */
  lemma EncodeVisible(rel: string)
    requires (forall x :: x in Split(rel) ==> x != "") && !IsHidden(rel)
    ensures EncodeProtected(rel) == rel
  {
    var segs := Split(rel);
    NonEmptyIsAll(segs);
    forall i | 0 <= i < |segs| ensures EncodeSegment(segs[i]) == segs[i] {
      assert segs[i] in segs;
      if segs[i][0] == '.' {
        HiddenSegment(rel, segs[i]);
      }
    }
    assert MapEncode(segs) == segs;
    JoinOfSplit(rel);
  }

  lemma JailAdmits(prefix: string, name: string)
    requires ValidPrefix(prefix) && Normal(name) && forall x :: x in Split(name) ==> x[0] != '.'
    ensures AssertWithinPrefix(prefix + "/" + name, prefix) == Some(prefix + "/" + name)
  {
    var wire := prefix + "/" + name;
    hide Split, Normpath, Strip, LooksWindowsAbsolute, IsSpace, IsHidden, Contains;
    SplitBetween(prefix, name);
    StripEnds(prefix);
    StripEnds(name);
    StripClean(wire);
    UnbackslashNothing(wire);
    FirstIsNotSlash(prefix);
    NormpathKeeps(wire);
    NotHidden(wire);
    assert wire[..|prefix| + 1] == prefix + "/";
  }

  /** A file that push may upload is written inside the prefix, to a path that the walk of the
      remote tree lists under the very same key. */
  lemma ListedUnderTheSameKey(prefix: string, rel: string, protect: bool)
    requires ValidPrefix(prefix) && Normal(rel) && Plain(rel) && (protect || !IsHidden(rel))
    ensures WirePath(prefix, rel, protect).Some?
    ensures WalkKey(WirePath(prefix, rel, protect).value, prefix) == Some(rel)
    ensures AssertWithinPrefix(WirePath(prefix, rel, protect).value, prefix) == WirePath(prefix, rel, protect)
  {
    hide Normal, NormalizeRel, IsHidden, AssertWithinPrefix, EncodeProtected, DecodeProtected;
    NormalIsFixed(rel);
    EncodedIsNormal(rel);
    if !protect {
      NormalSplits(rel);
      EncodeVisible(rel);
    }
    var name := EncodeProtected(rel);
    NormalIsFixed(name);
    EncodedSplit(rel);
    JailAdmits(prefix, name);
    var wire := prefix + "/" + name;
    assert wire[|prefix| + 1..] == name;
    DecodeOfEncode(rel);
  }

  lemma NormalSplits(rel: string)
    requires Normal(rel)
    ensures forall x :: x in Split(rel) ==> x != ""
  {
  }
}

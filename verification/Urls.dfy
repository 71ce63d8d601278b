/** Folder URLs: printing the address of a workspace folder and parsing an address that was
    copied from the browser. */
module Urls {
  import opened Basics
  import opened Text
  import opened Paths
  import opened PercentCoding
  import opened Utf8Coding

  // ---- printing -------------------------------------------------------------------------

  predicate EndsWith(s: string, part: string) {
    |part| <= |s| && s[|s| - |part|..] == part
  }

  function WithoutDots(segs: seq<string>): (r: seq<string>)
    ensures forall x :: x in r ==> x in segs && x != "" && x != "."
  {
    if segs == [] then []
    else if segs[0] == "" || segs[0] == "." then WithoutDots(segs[1..])
    else [segs[0]] + WithoutDots(segs[1..])
  }

  /** PurePosixPath(path).parts without the single root slash; a double one is a part of its own. */
  function Parts(path: string): seq<string> {
    (if BeginsWith(path, "//") && !BeginsWith(path, "///") then ["//"] else []) + WithoutDots(Split(path))
  }

  function MapQuote(segs: seq<string>): (r: seq<string>)
    ensures |r| == |segs| && forall i :: 0 <= i < |r| ==> r[i] == Quote(segs[i])
  {
    seq(|segs|, i requires 0 <= i < |segs| => Quote(segs[i]))
  }

  const API := "/api"

  function ServerRoot(base: string): string {
    StripTrailingSlashes(if EndsWith(base, API) then base[..|base| - |API|] else base)
  }

  function FolderUrl(base: string, prefix: string, subpath: string): string {
    ServerRoot(base) + "/lab/tree/" + Join(MapQuote(Parts(prefix) + Parts(subpath)))
  }

  // ---- taking an address apart ----------------------------------------------------------------

  predicate IsBreak(c: char) {
    c == '\t' || c == '\r' || c == '\n'
  }

  function DropControls(s: string): string {
    if s != "" && s[0] <= ' ' then DropControls(s[1..]) else s
  }

  function RemoveBreaks(s: string): string {
    if s == "" then "" else (if IsBreak(s[0]) then "" else [s[0]]) + RemoveBreaks(s[1..])
  }

  predicate SchemeChar(c: char) {
    IsLetter(c) || IsDigit(c) || c == '+' || c == '-' || c == '.'
  }

  function Lower(s: string): (r: string)
    ensures |r| == |s|
  {
    seq(|s|, i requires 0 <= i < |s| => if 'A' <= s[i] <= 'Z' then s[i] - 'A' + 'a' else s[i])
  }

  /** Where the first of the given characters stands, or the length. */
  function FirstOf(s: string, marks: string): (i: nat)
    ensures i <= |s| && (forall k :: 0 <= k < i ==> s[k] !in marks) && (i < |s| ==> s[i] in marks)
  {
    if s == "" || s[0] in marks then 0 else 1 + FirstOf(s[1..], marks)
  }

  datatype Address = Address(scheme: string, netloc: string, path: string)

  /** Host and path of what follows the scheme. */
  function SplitHost(scheme: string, rest: string): Address {
    var n := if BeginsWith(rest, "//") then FirstOf(rest[2..], "/?#") else 0;
    var netloc := if BeginsWith(rest, "//") then rest[2..][..n] else "";
    var tail := if BeginsWith(rest, "//") then rest[2..][n..] else rest;
    Address(scheme, netloc, tail[..FirstOf(tail, "?#")])
  }

  /** urlsplit, as far as scheme, host and path go. */
  function UrlSplit(url: string): Address {
    var u := RemoveBreaks(DropControls(url));
    var i := FirstIndex(u, ':');
    if 0 < i < |u| && IsLetter(u[0]) && forall k :: 0 <= k < i ==> SchemeChar(u[k])
    then SplitHost(Lower(u[..i]), u[i + 1..])
    else SplitHost("", u)
  }

  // ---- parsing -----------------------------------------------------------------------------------

  const VIEWS := {"tree", "notebooks", "edit", "view", "files"}

  /** The server's own segments and the rest; None where the user's name is missing. */
  function SplitServer(segs: seq<string>): Option<(seq<string>, seq<string>)> {
    var i := FirstIndex(segs, "user");
    if i == |segs| then Some(TakeNamed([], segs))
    else if i + 1 == |segs| then None
    else Some(TakeNamed(segs[..i + 2], segs[i + 2..]))
  }

  /** A named server may stand before the view. */
  function TakeNamed(base: seq<string>, rest: seq<string>): (seq<string>, seq<string>) {
    if rest != [] && rest[0] !in VIEWS && rest[0] != "lab" && rest[0] != "doc" then (base + [rest[0]], rest[1..])
    else (base, rest)
  }

  function DropApp(rest: seq<string>): seq<string> {
    if rest != [] && (rest[0] == "lab" || rest[0] == "doc") then
      if |rest| > 1 && rest[1] == "workspaces" then (if |rest| >= 3 then rest[3..] else []) else rest[1..]
    else rest
  }

  function DropView(rest: seq<string>): seq<string> {
    if rest != [] && rest[0] in VIEWS then rest[1..] else rest
  }

  /** The two results from the parts of the path. */
  function Finish(origin: string, parts: Option<(seq<string>, seq<string>)>): Option<(string, string)> {
    match parts
    case None => None
    case Some((base, rest)) =>
      var text := if base == [] then origin else origin + "/" + Join(base);
      Some((StripTrailingSlashes(text),
            StripTrailingSlashes(StripLeadingSlashes(Unbackslash(Unquote(Join(DropView(DropApp(rest)))))))))
  }

  /** The server's base address and the remote path; None is the UsageError. */
  function ParseCloneUrl(url: string): Option<(string, string)> {
    var a := UrlSplit(Strip(url));
    if (a.scheme != "http" && a.scheme != "https") || a.netloc == "" then None
    else Finish(a.scheme + "://" + a.netloc, SplitServer(NonEmpty(Split(a.path))))
  }

  // ---- the pieces of a printed address ---------------------------------------------------------

  /** What may stand in a host or a segment of a server's base address. */
  predicate Plain(s: string) {
    s != "" && forall c :: c in s ==> PlainChar(c)
  }

  predicate PlainChar(c: char) {
    c != '/' && c != '?' && c != '#' && !IsBreak(c)
  }

  /** What quoting leaves. */
  predicate Safe(c: char) {
    ' ' < c < '\U{80}' && PlainChar(c)
  }

  lemma {:induction false} QuoteBytesSafe(s: Bytes)
    ensures forall i :: 0 <= i < |QuoteBytes(s)| ==> Safe(QuoteBytes(s)[i])
    ensures |QuoteBytes(s)| >= |s|
  {
    if s != [] {
      QuoteBytesSafe(s[1..]);
      assert forall i :: 0 <= i < |QuoteByte(s[0])| ==> Safe(QuoteByte(s[0])[i]);
    }
  }

  lemma QuoteSafe(s: string)
    ensures forall c :: c in Quote(s) ==> Safe(c)
    ensures s != "" ==> Quote(s) != ""
  {
    QuoteBytesSafe(Utf8(s));
  }

  lemma UnquoteIsInverse(s: string)
    ensures Unquote(Quote(s)) == s
  {
    UnquoteOfQuote(Utf8(s), "");
    DecodeOfUtf8(s, []);
    assert Quote(s) + "" == Quote(s) && Utf8(s) + [] == Utf8(s) && s + "" == s;
    UnquoteAscii(Quote(s));
  }

  lemma QuoteIsUser(s: string)
    ensures Quote(s) == "user" <==> s == "user"
  {
    UnquoteIsInverse(s);
    UnquoteIsInverse("user");
    UserIsQuoted();
  }

  lemma UserIsQuoted()
    ensures Quote("user") == "user"
  {
    var u := "user";
    assert u[1..] == "ser" && u[1..][1..] == "er" && u[1..][1..][1..] == "r" && u[1..][1..][1..][1..] == "";
    assert Utf8("r") == ['r' as int] && Utf8("er") == ['e' as int, 'r' as int];
    assert Utf8("ser") == ['s' as int, 'e' as int, 'r' as int];
    assert Utf8(u) == ['u' as int, 's' as int, 'e' as int, 'r' as int];
    assert QuoteBytes(['r' as int]) == "r" && QuoteBytes(['e' as int, 'r' as int]) == "er";
    assert QuoteBytes(['s' as int, 'e' as int, 'r' as int]) == "ser";
  }

  lemma {:induction false} Utf8Append(a: string, b: string)
    ensures Utf8(a + b) == Utf8(a) + Utf8(b)
  {
    if a == "" {
      assert a + b == b;
    } else {
      Utf8Append(a[1..], b);
      assert (a + b)[1..] == a[1..] + b && (a + b)[0] == a[0];
      hide Utf8Char;
      Regroup(Utf8Char(a[0]), Utf8(a[1..]), Utf8(b));
    }
  }

  lemma SlashStays(rest: string)
    requires Ascii(rest)
    ensures Ascii("/" + rest) && UnquoteBytes("/" + rest) == ['/' as int] + UnquoteBytes(rest)
    ensures Utf8("/") == ['/' as int]
  {
  }

  /** Joined quoted segments are the bytes of the joined segments. */
  lemma {:induction false} BytesOfJoin(segs: seq<string>)
    ensures Ascii(Join(MapQuote(segs))) && UnquoteBytes(Join(MapQuote(segs))) == Utf8(Join(segs))
  {
    hide Utf8, UnquoteBytes, QuoteBytes, Ascii;
    if segs == [] {
      EmptyBytes();
    } else {
      EmptyBytes();
      var q := Utf8(segs[0]);
      if |segs| == 1 {
        UnquoteOfQuote(q, "");
        assert QuoteBytes(q) + "" == QuoteBytes(q) && q + [] == q;
      } else {
        var rest := Join(MapQuote(segs[1..]));
        BytesOfJoin(segs[1..]);
        assert MapQuote(segs)[1..] == MapQuote(segs[1..]);
        SlashStays(rest);
        UnquoteOfQuote(q, "/" + rest);
        Regroup(Quote(segs[0]), "/", rest);
        Utf8Append("/", Join(segs[1..]));
        Utf8Append(segs[0], "/" + Join(segs[1..]));
        Regroup(segs[0], "/", Join(segs[1..]));
      }
    }
  }

  lemma EmptyBytes()
    ensures Ascii("") && UnquoteBytes("") == [] == Utf8("")
  {
  }

  lemma UnquoteOfJoin(segs: seq<string>)
    ensures Unquote(Join(MapQuote(segs))) == Join(segs)
  {
    BytesOfJoin(segs);
    UnquoteAscii(Join(MapQuote(segs)));
    DecodeOfUtf8(Join(segs), []);
    assert Utf8(Join(segs)) + [] == Utf8(Join(segs)) && Join(segs) + "" == Join(segs);
  }

  // ---- taking a printed address apart --------------------------------------------------------------

  function SchemeOf(secure: bool): string {
    if secure then "https" else "http"
  }

  lemma {:induction false} NoBreaks(s: string)
    requires forall c :: c in s ==> !IsBreak(c)
    ensures RemoveBreaks(s) == s
  {
    if s != "" {
      assert s[0] in s && forall c :: c in s[1..] ==> c in s;
      NoBreaks(s[1..]);
    }
  }

  lemma FirstOfIs(s: string, marks: string, i: nat)
    requires i <= |s| && (i < |s| ==> s[i] in marks) && forall k :: 0 <= k < i ==> s[k] !in marks
    ensures FirstOf(s, marks) == i
  {
  }

  lemma SchemeFirst(secure: bool, tail: string)
    ensures
      var u, i := SchemeOf(secure) + ":" + tail, |SchemeOf(secure)|;
      && 0 < FirstIndex(u, ':') == i < |u| && IsLetter(u[0]) && (forall k :: 0 <= k < i ==> SchemeChar(u[k]))
      && Lower(u[..i]) == SchemeOf(secure) && u[i + 1..] == tail && DropControls(u) == u
  {
    var u, i := SchemeOf(secure) + ":" + tail, |SchemeOf(secure)|;
    assert u[..i] == SchemeOf(secure);
    assert forall k :: 0 <= k < i ==> u[k] == SchemeOf(secure)[k];
    FirstIndexIs(u, ':', i);
  }

  lemma NoBreaksHere(secure: bool, tail: string)
    requires forall c :: c in tail ==> c == '/' || PlainChar(c)
    ensures RemoveBreaks(SchemeOf(secure) + ":" + tail) == SchemeOf(secure) + ":" + tail
  {
    var u := SchemeOf(secure) + ":" + tail;
    forall c | c in u ensures !IsBreak(c) {
      assert c in SchemeOf(secure) || c in ":" || c in tail;
    }
    NoBreaks(u);
  }

  lemma HostFirst(host: string, path: string)
    requires Plain(host) && path != "" && path[0] == '/' && forall c :: c in path ==> c == '/' || PlainChar(c)
    ensures FirstOf(host + path, "/?#") == |host| && (host + path)[..|host|] == host && (host + path)[|host|..] == path
    ensures FirstOf(path, "?#") == |path| && path[..|path|] == path
  {
    hide FirstOf, IsBreak;
    forall k | 0 <= k < |host| ensures (host + path)[k] !in "/?#" {
      assert host[k] in host && PlainChar(host[k]);
    }
    FirstOfIs(host + path, "/?#", |host|);
    forall k | 0 <= k < |path| ensures path[k] !in "?#" {
      assert path[k] in path;
    }
    FirstOfIs(path, "?#", |path|);
  }

  lemma SchemeIsSplit(secure: bool, tail: string)
    requires forall c :: c in tail ==> c == '/' || PlainChar(c)
    ensures UrlSplit(SchemeOf(secure) + ":" + tail) == SplitHost(SchemeOf(secure), tail)
  {
    hide FirstIndex, DropControls, RemoveBreaks, Lower, SchemeChar, SchemeOf, PlainChar, IsLetter, SplitHost;
    SchemeFirst(secure, tail);
    NoBreaksHere(secure, tail);
  }

  /** The scheme, the host and the path come back; there is no query and no fragment. */
  lemma AddressParts(secure: bool, host: string, path: string)
    requires Plain(host) && path != "" && path[0] == '/'
    requires forall c :: c in path ==> c == '/' || PlainChar(c)
    ensures UrlSplit(SchemeOf(secure) + ":" + ("//" + (host + path))) == Address(SchemeOf(secure), host, path)
  {
    hide FirstOf, SchemeOf, PlainChar, UrlSplit;
    var after := "//" + (host + path);
    SchemeIsSplit(secure, after);
    HostFirst(host, path);
    assert after[..2] == "//" && after[2..] == host + path;
  }

  /** The segments of a path that starts with a slash. */
  lemma PathSegments(segs: seq<string>)
    requires segs != [] && forall x :: x in segs ==> '/' !in x
    ensures NonEmpty(Split("/" + Join(segs))) == NonEmpty(segs)
  {
    SplitFirst("", Join(segs));
    assert "" + "/" + Join(segs) == "/" + Join(segs);
    SplitOfJoin(segs);
    NonEmptyAppend([""], segs);
  }

  /** What is printed behind the view: nothing, or the quoted names. */
  function Printed(names: seq<string>): (r: seq<string>)
    ensures r != []
  {
    if names == [] then [""] else MapQuote(names)
  }

  lemma PrintedIsSafe(names: seq<string>)
    requires forall x :: x in names ==> x != ""
    ensures forall x :: x in Printed(names) ==> forall c :: c in x ==> Safe(c)
    ensures NonEmpty(Printed(names)) == MapQuote(names)
    ensures forall x :: x in MapQuote(names) ==> x != ""
  {
    forall i | 0 <= i < |names| ensures MapQuote(names)[i] != "" && forall c :: c in MapQuote(names)[i] ==> Safe(c) {
      assert names[i] in names;
      QuoteSafe(names[i]);
    }
    NonEmptyIsAll(MapQuote(names));
  }

  lemma {:induction false} JoinCharsAre(segs: seq<string>)
    requires forall x :: x in segs ==> forall c :: c in x ==> PlainChar(c)
    ensures forall c :: c in Join(segs) ==> c == '/' || PlainChar(c)
    decreases |segs|
  {
    if segs != [] {
      assert segs[0] in segs && forall x :: x in segs[1..] ==> x in segs;
      JoinCharsAre(segs[1..]);
    }
  }

  lemma {:induction false} JoinEnds(segs: seq<string>)
    requires |segs| > 1
    ensures
      var s, last := Join(segs), segs[|segs| - 1];
      s != "" && s[|s| - 1] == if last == "" then '/' else last[|last| - 1]
    decreases |segs|
  {
    if |segs| > 2 {
      JoinEnds(segs[1..]);
    }
  }

  const VIEW := ["lab", "tree"]

  /** Parsing an address comes down to its segments: plain ones, then quoted names. */
  lemma ParsePrinted(secure: bool, host: string, front: seq<string>, names: seq<string>)
    requires Plain(host) && front != [] && (forall x :: x in front ==> Plain(x)) && forall x :: x in names ==> x != ""
    ensures
      var origin := SchemeOf(secure) + "://" + host;
      ParseCloneUrl(origin + "/" + Join(front + Printed(names)))
        == Finish(origin, SplitServer(front + MapQuote(names)))
  {
    hide UrlSplit, Strip, NonEmpty, Split, Join, Finish, SplitServer, MapQuote, Printed, PlainChar;
    var all := front + Printed(names);
    PrintedSegments(front, names);
    JoinCharsAre(all);
    PathSegments(all);
    var path := "/" + Join(all);
    AddressParts(secure, host, path);
    OneText(SchemeOf(secure), host, path);
    Regroup(SchemeOf(secure) + "://" + host, "/", Join(all));
    NoSpaceAtEnds(SchemeOf(secure) + "://" + host, all, names);
  }

  lemma OneText(scheme: string, host: string, path: string)
    ensures scheme + "://" + host + path == scheme + ":" + ("//" + (host + path))
  {
  }

  lemma PrintedSegments(front: seq<string>, names: seq<string>)
    requires (forall x :: x in front ==> Plain(x)) && forall x :: x in names ==> x != ""
    ensures
      var all := front + Printed(names);
      && (forall x :: x in all ==> '/' !in x && forall c :: c in x ==> PlainChar(c))
      && NonEmpty(all) == front + MapQuote(names)
  {
    var all := front + Printed(names);
    PrintedIsSafe(names);
    NonEmptyAppend(front, Printed(names));
    NonEmptyIsAll(front);
    hide NonEmpty, Printed, MapQuote, IsBreak;
    forall x | x in all ensures '/' !in x && forall c :: c in x ==> PlainChar(c) {
      assert x in front || x in Printed(names);
    }
  }

  lemma ViewIsPlain()
    ensures forall x :: x in VIEW ==> Plain(x)
  {
  }

  lemma FrontIsPlain(server: seq<string>)
    requires forall x :: x in server ==> Plain(x)
    ensures server + VIEW != [] && forall x :: x in server + VIEW ==> Plain(x)
  {
    ViewIsPlain();
    hide Plain;
  }

  lemma NoSpaceAtEnds(front: string, all: seq<string>, names: seq<string>)
    requires front != "" && front[0] == 'h'
    requires |all| > 1 && all[|all| - 1] == Printed(names)[|Printed(names)| - 1] && forall x :: x in names ==> x != ""
    ensures Strip(front + ("/" + Join(all))) == front + ("/" + Join(all))
  {
    var url := front + ("/" + Join(all));
    var last := all[|all| - 1];
    PrintedIsSafe(names);
    JoinEnds(all);
    assert last in Printed(names);
    assert last != "" ==> last[|last| - 1] in last;
    assert url[|url| - 1] == Join(all)[|Join(all)| - 1];
    StripClean(url);
  }

  // ---- the round trip -----------------------------------------------------------------------

  /** A server's base address: an origin, with a user's name, with a named server. */
  datatype Base = Standalone(secure: bool, host: string) | Personal(secure: bool, host: string, user: string)
                | Named(secure: bool, host: string, user: string, server: string)

  function Origin(b: Base): string {
    SchemeOf(b.secure) + "://" + b.host
  }

  function Segments(b: Base): seq<string> {
    match b
    case Standalone(_, _) => []
    case Personal(_, _, user) => ["user", user]
    case Named(_, _, user, server) => ["user", user, server]
  }

  function BaseText(b: Base): string {
    if Segments(b) == [] then Origin(b) else Origin(b) + "/" + Join(Segments(b))
  }

  predicate GoodBase(b: Base) {
    && Plain(b.host) && (forall x :: x in Segments(b) ==> Plain(x))
    && (b.Named? ==> b.server !in VIEWS && b.server != "lab" && b.server != "doc")
  }

  /** The last piece of the base address. */
  function LastPiece(b: Base): string {
    match b
    case Standalone(_, host) => host
    case Personal(_, _, user) => user
    case Named(_, _, _, server) => server
  }

  /** A remote path without empty and dot segments and without backslashes; it may be empty. */
  predicate TidyPath(p: string) {
    p == "" || ('\\' !in p && forall x :: x in Split(p) ==> x != "" && x != ".")
  }

  function NamesOf(p: string): seq<string> {
    if p == "" then [] else Split(p)
  }

  lemma {:induction false} WithoutDotsKeeps(segs: seq<string>)
    requires forall x :: x in segs ==> x != "" && x != "."
    ensures WithoutDots(segs) == segs
  {
    if segs != [] {
      assert segs[0] in segs && forall x :: x in segs[1..] ==> x in segs;
      WithoutDotsKeeps(segs[1..]);
    }
  }

  lemma NotRooted(p: string)
    requires p != "" && p[0] != '/'
    ensures !BeginsWith(p, "//")
  {
  }

  lemma PartsAreNames(p: string)
    requires TidyPath(p)
    ensures Parts(p) == NamesOf(p)
    ensures forall x :: x in NamesOf(p) ==> x != "" && '/' !in x
  {
    if p != "" {
      assert Split(p)[0] in Split(p);
      NotRooted(p);
      WithoutDotsKeeps(Split(p));
      assert [] + Split(p) == Split(p);
    } else {
      SplitLast(p);
      assert [""][1..] == [];
    }
  }

  lemma NamesSide(prefix: string, subpath: string)
    requires TidyPath(prefix) && TidyPath(subpath)
    ensures
      var names := NamesOf(prefix) + NamesOf(subpath);
      && Parts(prefix) + Parts(subpath) == names
      && Join(names) == JoinPaths(prefix, subpath)
      && forall x :: x in names ==> x != "" && '/' !in x
  {
    PartsAreNames(prefix);
    PartsAreNames(subpath);
    JoinOfSplit(prefix);
    JoinOfSplit(subpath);
    if prefix != "" && subpath != "" {
      JoinAppend(Split(prefix), Split(subpath));
    } else if prefix == "" {
      assert [] + NamesOf(subpath) == NamesOf(subpath);
    } else {
      assert NamesOf(prefix) + [] == NamesOf(prefix);
    }
  }

  function JoinPaths(prefix: string, subpath: string): string {
    if prefix == "" then subpath else if subpath == "" then prefix else prefix + "/" + subpath
  }

  lemma TidyStays(prefix: string, subpath: string)
    requires TidyPath(prefix) && TidyPath(subpath)
    ensures
      var p := JoinPaths(prefix, subpath);
      StripTrailingSlashes(StripLeadingSlashes(Unbackslash(p))) == p
  {
    var p := JoinPaths(prefix, subpath);
    TidyEnds(prefix);
    TidyEnds(subpath);
    if p != "" {
      assert p[0] != '/' && p[|p| - 1] != '/';
    }
    assert '\\' !in p;
    UnbackslashNothing(p);
  }

  lemma TidyEnds(p: string)
    requires TidyPath(p)
    ensures p != "" ==> p[0] != '/' && p[|p| - 1] != '/' && '\\' !in p
  {
    if p != "" {
      assert Split(p)[0] in Split(p);
      JoinOfSplit(p);
      var n := |Split(p)| - 1;
      assert Split(p)[n] in Split(p);
      JoinLast(Split(p));
      assert Split(p)[n][|Split(p)[n]| - 1] in Split(p)[n];
    }
  }

  /** A text that ends in a nonempty segment keeps its end. */
  lemma EndStays(front: string, segs: seq<string>)
    requires segs != [] && segs[|segs| - 1] != "" && '/' !in segs[|segs| - 1]
    ensures Join(segs) != "" && StripTrailingSlashes(front + "/" + Join(segs)) == front + "/" + Join(segs)
  {
    var last := segs[|segs| - 1];
    JoinLast(segs);
    assert last[|last| - 1] in last;
  }

  lemma EndsInApi(front: string, last: string)
    requires last != "" && '/' !in last
    ensures EndsWith(front + "/" + last, API) <==> last == "api"
    ensures last == "api" ==> (front + "/" + last)[..|front + "/" + last| - |API|] == front
  {
    var s := front + "/" + last;
    assert |last| == 3 ==> s[|s| - 4..] == "/" + last && API == "/" + "api" && (last == API[1..] ==> last == "api");
    assert |last| > 3 ==> s[|s| - 4] == last[|last| - 4] && last[|last| - 4] in last;
    assert |last| < 3 ==> s[|front|] == '/';
    assert |s| >= 4 ==> var tail := s[|s| - 4..];
      tail[0] == s[|s| - 4] && tail[1] == s[|s| - 3] && tail[2] == s[|s| - 2] && tail[3] == s[|s| - 1];
    assert API[0] == '/' && API[1] != '/' && API[2] != '/' && API[3] != '/';
    assert |last| == 3 && "/" + last == API ==> last == API[1..];
  }

  lemma ViewDrops(q: seq<string>)
    ensures DropView(DropApp(VIEW + q)) == q && DropView(DropApp(["tree"] + q)) == q
  {
  }

  /** The names come back, with whatever has been taken for the server. */
  lemma BehindServer(
    secure: bool, host: string, front: seq<string>, prefix: string, subpath: string, found: seq<string>,
    rest: seq<string>)
    requires Plain(host) && front != [] && (forall x :: x in front ==> Plain(x))
    requires TidyPath(prefix) && TidyPath(subpath)
    requires
      var q := MapQuote(NamesOf(prefix) + NamesOf(subpath));
      SplitServer(front + q) == Some((found, rest)) && DropView(DropApp(rest)) == q
    ensures
      var origin := SchemeOf(secure) + "://" + host;
      ParseCloneUrl(origin + "/" + Join(front + Printed(NamesOf(prefix) + NamesOf(subpath))))
        == Some((StripTrailingSlashes(if found == [] then origin else origin + "/" + Join(found)),
            JoinPaths(prefix, subpath)))
  {
    hide Plain, TidyPath, NamesOf, SplitServer, StripTrailingSlashes, StripLeadingSlashes, Unbackslash, Unquote, Join,
        ParseCloneUrl, MapQuote, Printed, JoinPaths, Parts, DropView, DropApp, SchemeOf;
    var names := NamesOf(prefix) + NamesOf(subpath);
    NamesSide(prefix, subpath);
    ParsePrinted(secure, host, front, names);
    UnquoteOfJoin(names);
    TidyStays(prefix, subpath);
  }

  /** The address that is printed. */
  lemma UrlOf(base: string, prefix: string, subpath: string, origin: string, server: seq<string>)
    requires TidyPath(prefix) && TidyPath(subpath)
    requires ServerRoot(base) == if server == [] then origin else origin + "/" + Join(server)
    ensures FolderUrl(base, prefix, subpath)
         == origin + "/" + Join(server + VIEW + Printed(NamesOf(prefix) + NamesOf(subpath)))
  {
    hide TidyPath, NamesOf, ServerRoot, Parts, MapQuote, EndsWith, Join, Printed;
    var names := NamesOf(prefix) + NamesOf(subpath);
    NamesSide(prefix, subpath);
    JoinPrinted(names);
    JoinView();
    JoinAppend(VIEW, Printed(names));
    SameText(origin, Join(server), Join(MapQuote(names)));
    if server != [] {
      JoinAppend(server, VIEW + Printed(names));
      Regroup(server, VIEW, Printed(names));
    } else {
      assert [] + VIEW + Printed(names) == VIEW + Printed(names);
    }
  }

  lemma JoinView()
    ensures Join(VIEW) == "lab/tree"
  {
  }

  lemma SameText(origin: string, server: string, names: string)
    ensures (origin + "/" + server) + "/lab/tree/" + names == origin + "/" + (server + "/" + ("lab/tree" + "/" + names))
    ensures origin + "/lab/tree/" + names == origin + "/" + ("lab/tree" + "/" + names)
  {
  }

  lemma JoinPrinted(names: seq<string>)
    ensures Join(Printed(names)) == Join(MapQuote(names))
  {
  }

  lemma BaseEnds(b: Base)
    requires GoodBase(b)
    ensures StripTrailingSlashes(BaseText(b)) == BaseText(b)
    ensures EndsWith(BaseText(b), API) <==> LastPiece(b) == "api"
    ensures LastPiece(b) == "api" ==> BaseText(b)[..|BaseText(b)| - |API|] == match b
              case Standalone(secure, _) => SchemeOf(secure) + ":/"
              case Personal(_, _, _) => Origin(b) + "/user"
              case Named(_, _, user, _) => Origin(b) + "/" + Join(["user", user])
  {
    var front := match b
      case Standalone(secure, _) => SchemeOf(secure) + ":/"
      case Personal(_, _, _) => Origin(b) + "/user"
      case Named(_, _, user, _) => Origin(b) + "/" + Join(["user", user]);
    var last := LastPiece(b);
    LastIsPlain(b);
    BaseIs(b, front, last);
    hide EndsWith, Join;
    EndsInApi(front, last);
    assert last[|last| - 1] in last;
  }

  lemma LastIsPlain(b: Base)
    requires GoodBase(b)
    ensures LastPiece(b) != "" && '/' !in LastPiece(b)
  {
    match b
    case Standalone(_, _) =>
    case Personal(_, _, user) => assert Plain(Segments(b)[1]);
    case Named(_, _, _, server) => assert Plain(Segments(b)[2]);
  }

  lemma BaseIs(b: Base, front: string, last: string)
    requires last == LastPiece(b)
    requires front == match b
      case Standalone(secure, _) => SchemeOf(secure) + ":/"
      case Personal(_, _, _) => Origin(b) + "/user"
      case Named(_, _, user, _) => Origin(b) + "/" + Join(["user", user])
    ensures BaseText(b) == front + "/" + last
  {
    hide SchemeOf;
    match b
    case Standalone(secure, host) =>
      assert "://" == ":/" + "/";
    case Personal(_, _, user) =>
      assert Join(["user", user]) == "user" + "/" + user;
    case Named(_, _, user, server) =>
      JoinAppend(["user", user], [server]);
      assert ["user", user] + [server] == ["user", user, server];
  }

  lemma NoUserQuoted(names: seq<string>)
    ensures "user" in MapQuote(names) <==> "user" in names
  {
    forall i | 0 <= i < |names| ensures MapQuote(names)[i] == "user" <==> names[i] == "user" {
      QuoteIsUser(names[i]);
    }
  }

  /** The server's segments are recognized again. */
  lemma ServerIsFound(b: Base, q: seq<string>)
    requires GoodBase(b) && (b.Standalone? ==> "user" !in q)
    ensures SplitServer(Segments(b) + VIEW + q) == Some((Segments(b), VIEW + q))
  {
    var segs := Segments(b) + VIEW + q;
    match b {
      case Standalone(_, _) =>
        assert [] + VIEW + q == VIEW + q;
        assert VIEW[0] != "user" && VIEW[1] != "user" && segs[0] == "lab";
        FirstIndexIs(segs, "user", |segs|);
        assert SplitServer(segs) == Some(([], segs));
      case Personal(_, _, user) =>
        FirstIndexIs(segs, "user", 0);
        assert segs[..2] == Segments(b) && segs[2..] == VIEW + q && segs[2] == "lab";
      case Named(_, _, user, server) =>
        FirstIndexIs(segs, "user", 0);
        assert segs[..2] == ["user", user] && segs[2..] == [server] + VIEW + q;
        assert segs[2..][1..] == VIEW + q && segs[2..][0] == server && ["user", user] + [server] == Segments(b);
    }
  }

  lemma GoodRoundTrip(b: Base, prefix: string, subpath: string)
    requires GoodBase(b) && TidyPath(prefix) && TidyPath(subpath)
    requires LastPiece(b) != "api" && (b.Standalone? ==> "user" !in NamesOf(prefix) + NamesOf(subpath))
    ensures ParseCloneUrl(FolderUrl(BaseText(b), prefix, subpath)) == Some((BaseText(b), JoinPaths(prefix, subpath)))
  {
    hide TidyPath, NamesOf, SplitServer, ParseCloneUrl, FolderUrl, EndsWith, StripTrailingSlashes, JoinPaths, MapQuote,
        Printed;
    var q := MapQuote(NamesOf(prefix) + NamesOf(subpath));
    BaseEnds(b);
    NoUserQuoted(NamesOf(prefix) + NamesOf(subpath));
    UrlOf(BaseText(b), prefix, subpath, Origin(b), Segments(b));
    ServerIsFound(b, q);
    ViewDrops(q);
    FrontIsPlain(Segments(b));
    BehindServer(b.secure, b.host, Segments(b) + VIEW, prefix, subpath, Segments(b), VIEW + q);
  }

  // ---- what does not come back ---------------------------------------------------------------

  lemma ServerNamedApi(b: Base, prefix: string, subpath: string)
    requires GoodBase(b) && TidyPath(prefix) && TidyPath(subpath) && b.Named? && b.server == "api"
    ensures ParseCloneUrl(FolderUrl(BaseText(b), prefix, subpath))
         == Some((BaseText(Personal(b.secure, b.host, b.user)), JoinPaths(prefix, subpath)))
  {
    hide TidyPath, NamesOf, SplitServer, ParseCloneUrl, FolderUrl, EndsWith, StripTrailingSlashes, JoinPaths, MapQuote,
        Printed;
    var p := Personal(b.secure, b.host, b.user);
    assert forall x :: x in Segments(p) ==> x in Segments(b);
    var q := MapQuote(NamesOf(prefix) + NamesOf(subpath));
    BaseEnds(b);
    BaseEnds(p);
    UrlOf(BaseText(b), prefix, subpath, Origin(b), Segments(p));
    ServerIsFound(p, q);
    ViewDrops(q);
    FrontIsPlain(Segments(p));
    BehindServer(b.secure, b.host, Segments(p) + VIEW, prefix, subpath, Segments(p), VIEW + q);
  }

  lemma RootWithoutUser(b: Base)
    requires GoodBase(b) && b.Personal? && b.user == "api"
    ensures ServerRoot(BaseText(b)) == Origin(b) + "/" + Join(["user"])
  {
    hide EndsWith, Plain;
    BaseEnds(b);
    Regroup(Origin(b), "/", "user");
    EndStays(Origin(b), ["user"]);
  }

  lemma LabIsTaken(q: seq<string>)
    ensures SplitServer(["user"] + VIEW + q) == Some((["user", "lab"], ["tree"] + q))
  {
    var segs := ["user"] + VIEW + q;
    FirstIndexIs(segs, "user", 0);
    assert segs[..2] == ["user", "lab"] && segs[2..] == ["tree"] + q && segs[2..][0] == "tree";
  }

  lemma UserNamedApi(b: Base, prefix: string, subpath: string)
    requires GoodBase(b) && TidyPath(prefix) && TidyPath(subpath) && b.Personal? && b.user == "api"
    ensures ParseCloneUrl(FolderUrl(BaseText(b), prefix, subpath))
         == Some((Origin(b) + "/" + Join(["user", "lab"]), JoinPaths(prefix, subpath)))
  {
    hide TidyPath, NamesOf, ParseCloneUrl, FolderUrl, EndsWith, StripTrailingSlashes, JoinPaths, MapQuote, Printed,
        SplitServer, Join;
    var q := MapQuote(NamesOf(prefix) + NamesOf(subpath));
    RootWithoutUser(b);
    UrlOf(BaseText(b), prefix, subpath, Origin(b), ["user"]);
    LabIsTaken(q);
    ViewDrops(q);
    assert Plain("user");
    FrontIsPlain(["user"]);
    BehindServer(b.secure, b.host, ["user"] + VIEW, prefix, subpath, ["user", "lab"], ["tree"] + q);
    EndStays(Origin(b), ["user", "lab"]);
  }

  /** Nothing is left of the host: the address is refused. */
  lemma HostNamedApi(b: Base, prefix: string, subpath: string)
    requires GoodBase(b) && TidyPath(prefix) && TidyPath(subpath) && b.Standalone? && b.host == "api"
    ensures ParseCloneUrl(FolderUrl(BaseText(b), prefix, subpath)) == None
  {
    hide TidyPath, EndsWith, NamesOf, Printed, FolderUrl, ParseCloneUrl, Join;
    BaseEnds(b);
    RootWithoutHost(b.secure);
    UrlOf(BaseText(b), prefix, subpath, SchemeOf(b.secure) + ":", []);
    NamesSide(prefix, subpath);
    NoHost(b.secure, NamesOf(prefix) + NamesOf(subpath));
  }

  lemma RootWithoutHost(secure: bool)
    ensures StripTrailingSlashes(SchemeOf(secure) + ":/") == SchemeOf(secure) + ":"
  {
  }

  lemma NoHost(secure: bool, names: seq<string>)
    requires forall x :: x in names ==> x != ""
    ensures ParseCloneUrl(SchemeOf(secure) + ":" + "/" + Join([] + VIEW + Printed(names))) == None
  {
    hide Printed, Join, Strip, Finish, UrlSplit, SchemeOf, PlainChar, NonEmpty;
    var all := [] + VIEW + Printed(names);
    ViewIsPlain();
    PrintedSegments([] + VIEW, names);
    JoinCharsAre(all);
    HttpFirst(secure);
    NoSpaceAtEnds(SchemeOf(secure) + ":", all, names);
    Regroup(SchemeOf(secure) + ":", "/", Join(all));
    LabFirst(names);
    NoNetloc(secure, "/" + Join(all));
  }

  lemma HttpFirst(secure: bool)
    ensures SchemeOf(secure) != "" && SchemeOf(secure)[0] == 'h'
  {
  }

  /** Without the double slash there is no host. */
  lemma NoNetloc(secure: bool, tail: string)
    requires |tail| >= 2 && tail[1] != '/' && forall c :: c in tail ==> c == '/' || PlainChar(c)
    ensures UrlSplit(SchemeOf(secure) + ":" + tail).netloc == ""
  {
    hide FirstOf, SchemeOf, PlainChar, UrlSplit;
    SchemeIsSplit(secure, tail);
    assert tail[..2][1] == tail[1];
  }

  lemma LabFirst(names: seq<string>)
    ensures var s := Join([] + VIEW + Printed(names)); s != "" && s[0] == 'l'
  {
  }

  /** A user segment in the path is mistaken for the server's. */
  lemma UserInPath(b: Base, prefix: string, subpath: string)
    requires GoodBase(b) && TidyPath(prefix) && TidyPath(subpath) && b.Standalone? && b.host != "api"
    requires "user" in NamesOf(prefix) + NamesOf(subpath)
    ensures
      var r := ParseCloneUrl(FolderUrl(BaseText(b), prefix, subpath));
      r == None || r.value.0 != BaseText(b)
  {
    hide TidyPath, NamesOf, ParseCloneUrl, FolderUrl, EndsWith, StripTrailingSlashes, JoinPaths, MapQuote, Printed,
        SplitServer, Join,
         Unquote, Unbackslash, StripLeadingSlashes, DropApp, DropView, SchemeOf;
    var names := NamesOf(prefix) + NamesOf(subpath);
    BaseEnds(b);
    NamesSide(prefix, subpath);
    UrlOf(BaseText(b), prefix, subpath, Origin(b), []);
    ViewIsPlain();
    ParsePrinted(b.secure, b.host, [] + VIEW, names);
    MistakenServer(names);
    match SplitServer([] + VIEW + MapQuote(names))
    case None =>
    case Some((found, rest)) =>
      EndStays(Origin(b), found);
  }

  lemma MistakenServer(names: seq<string>)
    requires "user" in names && forall x :: x in names ==> x != "" && '/' !in x
    ensures
      match SplitServer([] + VIEW + MapQuote(names))
      case None => true
      case Some((found, rest)) => found != [] && found[|found| - 1] != "" && '/' !in found[|found| - 1]
  {
    hide SplitServer, MapQuote, Printed, Safe;
    var segs := [] + VIEW + MapQuote(names);
    NoUserQuoted(names);
    PrintedIsSafe(names);
    forall x | x in segs ensures x != "" && '/' !in x {
      assert x in VIEW || x in MapQuote(names);
      if x in MapQuote(names) {
        QuotedIsPrinted(names, x);
        SlashIsUnsafe(x);
      }
    }
    assert "user" in segs;
    TakenIsWhole(segs);
  }

  lemma QuotedIsPrinted(names: seq<string>, x: string)
    requires x in MapQuote(names)
    ensures x in Printed(names)
  {
  }

  lemma TakenIsWhole(segs: seq<string>)
    requires "user" in segs && forall x :: x in segs ==> x != "" && '/' !in x
    ensures
      match SplitServer(segs)
      case None => true
      case Some((found, rest)) => found != [] && found[|found| - 1] != "" && '/' !in found[|found| - 1]
  {
  }

  lemma SlashIsUnsafe(x: string)
    requires forall c :: c in x ==> Safe(c)
    ensures '/' !in x
  {
  }

  /** Parsing a printed folder address gives back the server's base address and the path,
      percent-encoding included, exactly when the base does not end in the API's own path and
      no path segment of a server without users is called "user". */
  lemma RoundTripExactly(b: Base, prefix: string, subpath: string)
    requires GoodBase(b) && TidyPath(prefix) && TidyPath(subpath)
    ensures ParseCloneUrl(FolderUrl(BaseText(b), prefix, subpath)) == Some((BaseText(b), JoinPaths(prefix, subpath)))
            <==> !EndsWith(BaseText(b), API) && (b.Standalone? ==> "user" !in NamesOf(prefix) + NamesOf(subpath))
  {
    hide TidyPath, NamesOf, ParseCloneUrl, FolderUrl, EndsWith, StripTrailingSlashes, JoinPaths, Join, Plain;
    BaseEnds(b);
    if LastPiece(b) == "api" {
      match b {
        case Standalone(_, _) => HostNamedApi(b, prefix, subpath);
        case Personal(_, _, _) => {
          UserNamedApi(b, prefix, subpath);
          LabIsNotApi(Origin(b));
        }
        case Named(secure, host, user, _) => {
          ServerNamedApi(b, prefix, subpath);
          NamedIsLonger(b);
        }
      }
    } else if b.Standalone? && "user" in NamesOf(prefix) + NamesOf(subpath) {
      UserInPath(b, prefix, subpath);
    } else {
      GoodRoundTrip(b, prefix, subpath);
    }
  }

  lemma LabIsNotApi(origin: string)
    ensures origin + "/" + Join(["user", "lab"]) != origin + "/" + Join(["user", "api"])
  {
    var a, b := origin + "/" + Join(["user", "lab"]), origin + "/" + Join(["user", "api"]);
    assert a[|a| - 1] == 'b' && b[|b| - 1] == 'i';
  }

  lemma NamedIsLonger(b: Base)
    requires b.Named?
    ensures BaseText(b) != BaseText(Personal(b.secure, b.host, b.user))
  {
    JoinAppend(["user", b.user], [b.server]);
    assert ["user", b.user] + [b.server] == Segments(b);
  }

  // ---- addresses copied from the browser -------------------------------------------------------

  /** What may stand between the server and the view: nothing, the lab or doc mode, with a workspace or not. */
  datatype Mode = Classic | Lab | Doc | Workspace(doc: bool, name: string)

  function ModeSegments(m: Mode): seq<string> {
    match m
    case Classic => []
    case Lab => ["lab"]
    case Doc => ["doc"]
    case Workspace(doc, name) => [if doc then "doc" else "lab", "workspaces", name]
  }

  /** The words that introduce a path. */
  predicate IsView(s: string) {
    s == "tree" || s == "notebooks" || s == "edit" || s == "view" || s == "files"
  }

  lemma FormDrops(m: Mode, view: string, q: seq<string>)
    requires IsView(view)
    ensures DropView(DropApp(ModeSegments(m) + [view] + q)) == q
  {
    var rest := ModeSegments(m) + [view] + q;
    match m {
      case Classic => assert rest == [view] + q;
      case Lab => assert rest[1..] == [view] + q;
      case Doc => assert rest[1..] == [view] + q;
      case Workspace(_, _) => assert rest[3..] == [view] + q && rest[1] == "workspaces";
    }
  }

  /** A form of address in which no word of the server, mode or view is mistaken for another. */
  predicate GoodForm(b: Base, m: Mode, view: string) {
    && GoodBase(b) && IsView(view)
    && (m.Workspace? ==> Plain(m.name) && (b.Standalone? ==> m.name != "user"))
  }

  lemma FormIsFound(b: Base, m: Mode, view: string, q: seq<string>)
    requires GoodForm(b, m, view) && (b.Standalone? ==> "user" !in q)
    ensures SplitServer(Segments(b) + (ModeSegments(m) + [view]) + q)
         == Some((Segments(b), ModeSegments(m) + [view] + q))
  {
    var rest := ModeSegments(m) + [view] + q;
    var segs := Segments(b) + (ModeSegments(m) + [view]) + q;
    assert segs == Segments(b) + rest;
    assert rest[0] in VIEWS || rest[0] == "lab" || rest[0] == "doc";
    match b {
      case Standalone(_, _) =>
        assert segs == rest;
        NoUserInForm(m, view, q);
        FirstIndexIs(segs, "user", |segs|);
      case Personal(_, _, _) =>
        FirstIndexIs(segs, "user", 0);
        assert segs[..2] == Segments(b) && segs[2..] == rest;
      case Named(_, _, user, server) =>
        FirstIndexIs(segs, "user", 0);
        assert segs[..2] == ["user", user] && segs[2..] == [server] + rest;
        assert segs[2..][1..] == rest && ["user", user] + [server] == Segments(b);
    }
  }

  lemma NoUserInForm(m: Mode, view: string, q: seq<string>)
    requires IsView(view) && (m.Workspace? ==> m.name != "user") && "user" !in q
    ensures forall k :: 0 <= k < |ModeSegments(m) + [view] + q| ==> (ModeSegments(m) + [view] + q)[k] != "user"
  {
    var front := ModeSegments(m) + [view];
    assert forall k :: 0 <= k < |front| ==> front[k] != "user";
    assert forall k :: 0 <= k < |q| ==> q[k] != "user";
  }

  lemma FormIsPlain(b: Base, m: Mode, view: string)
    requires GoodForm(b, m, view)
    ensures forall x :: x in Segments(b) + (ModeSegments(m) + [view]) ==> Plain(x)
  {
    assert Plain("lab") && Plain("doc") && Plain("workspaces");
    assert Plain("tree") && Plain("notebooks") && Plain("edit") && Plain("view") && Plain("files");
    hide Plain;
  }

  /** Any of the addresses a browser shows for a folder: with or without a user and a named server, the lab or
      doc mode and a workspace, with any of the view words, the names of the path percent-encoded. The base address
      and the path come back. */
  lemma AddressForms(b: Base, m: Mode, view: string, path: string)
    requires GoodForm(b, m, view) && TidyPath(path) && (b.Standalone? ==> "user" !in NamesOf(path))
    ensures
      var segs := Segments(b) + (ModeSegments(m) + [view]) + Printed(NamesOf(path));
      ParseCloneUrl(SchemeOf(b.secure) + "://" + b.host + "/" + Join(segs)) == Some((BaseText(b), path))
  {
    hide TidyPath, NamesOf, SplitServer, ParseCloneUrl, EndsWith, StripTrailingSlashes, MapQuote, Printed, DropView,
        DropApp, Join, Plain;
    var front, q := Segments(b) + (ModeSegments(m) + [view]), MapQuote(NamesOf(path));
    BaseEnds(b);
    NoUserQuoted(NamesOf(path));
    FormIsFound(b, m, view, q);
    FormDrops(m, view, q);
    FormIsPlain(b, m, view);
    EmptyIsTidy();
    assert [] + NamesOf(path) == NamesOf(path);
    BehindServer(b.secure, b.host, front, "", path, Segments(b), ModeSegments(m) + [view] + q);
  }

  lemma EmptyIsTidy()
    ensures TidyPath("") && NamesOf("") == []
  {
  }
}

/**
 The dependency scanner of compiler/dep_scan.c: which files a script can reach through calls of
 exec with a literal path.

 `Calls` are the literals one text yields, `Resolve` the path a literal stands for, and `Visit` the
 list a scan leaves.  The program is proved to compute `Visit` with a character pointer and an
 array, and `Visit` to list no path twice, only reachable paths, and all of them as long as they
 fit, on any file graph, cyclic ones included.

 The file system is a fixed map from paths to texts; a path can be opened when it is in the map.
 */
module DepScan {
  import opened Wrappers

  type Capacity = n: nat | n >= 2 witness 2

  // pathMax is NEXS_DEP_PATH_MAX, which differs between the builds.
  datatype World = World(files: map<string, string>, pathMax: Capacity)

  // ----- Paths

  function Cut(w: World, s: string): (c: string)
    ensures c <= s && |c| == if |s| < w.pathMax then |s| else w.pathMax - 1
  {
    if |s| < w.pathMax then s else s[..w.pathMax - 1]
  }

  // The place after the last slash, or 0.
  function AfterSlash(s: string): (k: nat)
    ensures k <= |s| && (k > 0 ==> s[k - 1] == '/') && forall i :: k <= i < |s| ==> s[i] != '/'
  {
    if s == [] then 0 else if s[|s| - 1] == '/' then |s| else AfterSlash(s[..|s| - 1])
  }

  function Dirname(w: World, path: string): string {
    var buf := Cut(w, path);
    var k := AfterSlash(buf);
    if k > 1 then buf[..k - 1] else if k == 1 then "/" else "."
  }

  function Join(w: World, dir: string, file: string): string {
    if (file != [] && file[0] == '/') || dir == "." then Cut(w, file) else Cut(w, dir + "/" + file)
  }

  // Relative to the working directory first, then to the directory of the calling file.
  function Resolve(w: World, parent: string, rel: string): string {
    var alt := Join(w, Dirname(w, parent), rel);
    if (rel != [] && rel[0] == '/') || rel in w.files || alt !in w.files then rel else alt
  }

  // The directory of a path that fits: what stands before its last slash.
  lemma DirnameIsParent(w: World, path: string)
    requires |path| < w.pathMax
    ensures '/' !in path ==> Dirname(w, path) == "."
    ensures '/' in path ==> exists base ::
      '/' !in base && (path == Dirname(w, path) + "/" + base || (Dirname(w, path) == "/" && path == "/" + base))
  {
    var k := AfterSlash(path);
    if k > 0 {
      var base := path[k..];
      assert '/' in path && '/' !in base;
      assert path == path[..k - 1] + "/" + base;
      if k == 1 { assert path == "/" + base; }
    }
  }

  // A dependency can be opened exactly when the literal can, or its place beside the calling file.
  lemma ResolveFinds(w: World, parent: string, rel: string)
    requires rel != []
    ensures Resolve(w, parent, rel) in w.files <==>
      rel in w.files || (rel[0] != '/' && Join(w, Dirname(w, parent), rel) in w.files)
    ensures rel[0] == '/' || rel in w.files ==> Resolve(w, parent, rel) == rel
  {
  }

  /**
   * What a relative literal stands for, in terms of the texts alone, for a caller d + "/" + base in a
   * directory d: the literal itself if it can be opened, else the file of that name in d if that can
   * be opened, else the literal.
   */
  lemma ResolveBeside(w: World, d: string, base: string, rel: string)
    requires d != [] && d != "." && '/' !in base && rel != [] && rel[0] != '/'
    requires |d + "/" + base| < w.pathMax && |d + "/" + rel| < w.pathMax
    ensures Resolve(w, d + "/" + base, rel) == if rel !in w.files && d + "/" + rel in w.files then d + "/" + rel else rel
  {
    hide AfterSlash;
    var path := d + "/" + base;
    LastSlash(path, |d|);
    assert path[..|d|] == d;
  }

  lemma LastSlash(s: string, i: nat)
    requires i < |s| && s[i] == '/' && '/' !in s[i + 1..]
    ensures AfterSlash(s) == i + 1
  {
    hide AfterSlash;
  }

  // A caller without a directory, in the working directory or in the root: the fallback is the
  // literal itself, or the literal behind two slashes.
  lemma ResolveAtTop(w: World, base: string, rel: string)
    requires '/' !in base && rel != [] && rel[0] != '/' && |base| + 2 < w.pathMax && |rel| + 2 < w.pathMax
    ensures Resolve(w, base, rel) == rel && Resolve(w, "./" + base, rel) == rel
    ensures Resolve(w, "/" + base, rel) == if rel !in w.files && "//" + rel in w.files then "//" + rel else rel
  {
    hide AfterSlash;
    assert ("./" + base)[2..] == base && ("/" + base)[1..] == base;
    LastSlash("./" + base, 1);
    LastSlash("/" + base, 0);
    assert ("./" + base)[..1] == ".";
    assert "/" + "/" + rel == "//" + rel;
  }

  // A script and a dependency beside it.
  lemma BesideExample()
    ensures
      var w := World(map["lib/a.nx" := "", "lib/b.nx" := ""], 512);
      Resolve(w, "lib/a.nx", "b.nx") == "lib/b.nx"
  {
    var w := World(map["lib/a.nx" := "", "lib/b.nx" := ""], 512);
    assert "lib" + "/" + "a.nx" == "lib/a.nx" && "lib" + "/" + "b.nx" == "lib/b.nx";
    ResolveBeside(w, "lib", "a.nx", "b.nx");
  }

  // ----- The literals of a text

  predicate Blank(c: char) { c == ' ' || c == '\t' }

  function SkipBlanks(s: string): (r: string)
    ensures |r| <= |s|
  {
    if s != [] && Blank(s[0]) then SkipBlanks(s[1..]) else s
  }

  function SkipLine(s: string): (r: string)
    ensures |r| <= |s|
  {
    if s == [] || s[0] == '\n' then s else SkipLine(s[1..])
  }

  // The characters before the closing quote or the end of the line.
  function Quoted(s: string, quote: char): (n: nat)
    ensures n <= |s|
  {
    if s == [] || s[0] == quote || s[0] == '\n' then 0 else 1 + Quoted(s[1..], quote)
  }

  // What follows an opening parenthesis after exec: a literal, if one is there, and where to go on.
  datatype Found = Found(lit: Option<string>, rest: string)

  function Argument(s: string, pathMax: Capacity): (f: Found)
    ensures |f.rest| <= |s|
  {
    var u := SkipBlanks(s);
    if u == [] || (u[0] != '"' && u[0] != '\'') then Found(None, u)
    else
      var n := Quoted(u[1..], u[0]);
      var rest := u[1 + n..];
      Found(if rest != [] && rest[0] == u[0] && 0 < n < pathMax - 1 then Some(u[1..1 + n]) else None, rest)
  }

  predicate CallHere(s: string) {
    "exec" <= s && var t := SkipBlanks(s[4..]); t != [] && t[0] == '('
  }

  // The literals that exec is called with, in order, outside comments.
  function Calls(s: string, pathMax: Capacity): (lits: seq<string>)
    decreases |s|
  {
    if s == [] then []
    else if s[0] == '#' then Calls(SkipLine(s[1..]), pathMax)
    else if CallHere(s) then
      var f := Argument(SkipBlanks(s[4..])[1..], pathMax);
      (if f.lit.Some? then [f.lit.value] else []) + Calls(f.rest, pathMax)
    else Calls(s[1..], pathMax)
  }

  function CallsOf(w: World, path: string): seq<string>
    requires path in w.files
  {
    Calls(w.files[path], w.pathMax)
  }

  // ----- Scripts written piece by piece

  datatype Piece =
    | Text(text: string)                                           // nothing starts in it
    | Comment(text: string)                                        // without its #
    | Call(gap: string, indent: string, quote: char, lit: string)  // exec with a closed literal
    | Broken(gap: string, indent: string, quote: char, lit: string) // exec with a literal the line ends in
    | Opened(gap: string, indent: string)                          // exec without a literal

  predicate Blanks(t: string) { forall i :: 0 <= i < |t| ==> Blank(t[i]) }

  predicate IsQuote(c: char) { c == '"' || c == '\'' }

  // The part of a call up to its argument.
  function Head(gap: string, indent: string): string { "exec" + (gap + ("(" + indent)) }

  function Written(p: Piece): string {
    match p
    case Text(t) => t
    case Comment(t) => "#" + t
    case Call(gap, indent, quote, lit) => Head(gap, indent) + ([quote] + (lit + [quote]))
    case Broken(gap, indent, quote, lit) => Head(gap, indent) + ([quote] + lit)
    case Opened(gap, indent) => Head(gap, indent)
  }

  function Script(ps: seq<Piece>): string {
    if ps == [] then "" else Written(ps[0]) + Script(ps[1..])
  }

  // A line or the text ends here.
  predicate EndsLine(rest: string) { rest == [] || rest[0] == '\n' }

  // Neither a comment nor a call starts in t, whatever of it reaches into the rest.
  ghost predicate Silent(t: string, rest: string) {
    '#' !in t && forall i :: 0 <= i < |t| ==> !CallHere((t + rest)[i..])
  }

  // A piece is what it says when it is followed by rest.
  ghost predicate Fits(p: Piece, rest: string) {
    match p
    case Text(t) => Silent(t, rest)
    case Comment(t) => '\n' !in t && EndsLine(rest)
    case Call(gap, indent, quote, lit) => Blanks(gap) && Blanks(indent) && IsQuote(quote) && quote !in lit && '\n' !in lit
    case Broken(gap, indent, quote, lit) =>
      Blanks(gap) && Blanks(indent) && IsQuote(quote) && quote !in lit && '\n' !in lit && EndsLine(rest)
    case Opened(gap, indent) => Blanks(gap) && Blanks(indent) && (rest == [] || (!Blank(rest[0]) && !IsQuote(rest[0])))
  }

  ghost predicate AllFit(ps: seq<Piece>) {
    ps == [] || (Fits(ps[0], Script(ps[1..])) && AllFit(ps[1..]))
  }

  // The literals of the calls that are neither empty nor too long.
  function Literals(ps: seq<Piece>, pathMax: Capacity): seq<string> {
    if ps == [] then [] else LiteralOf(ps[0], pathMax) + Literals(ps[1..], pathMax)
  }

  function LiteralOf(p: Piece, pathMax: Capacity): seq<string> {
    if p.Call? && 0 < |p.lit| < pathMax - 1 then [p.lit] else []
  }

  // The scanner passes over text in which nothing starts.
  lemma {:induction false} PassOver(t: string, rest: string, pathMax: Capacity)
    requires Silent(t, rest)
    ensures Calls(t + rest, pathMax) == Calls(rest, pathMax)
  {
    hide CallHere, Argument, SkipLine;
    if t == [] {
      assert t + rest == rest;
    } else {
      assert (t + rest)[0..] == t + rest && (t + rest)[0] == t[0] && t[0] in t;
      assert (t + rest)[1..] == t[1..] + rest;
      forall i | 0 <= i < |t[1..]| ensures !CallHere((t[1..] + rest)[i..]) {
        assert (t[1..] + rest)[i..] == (t + rest)[i + 1..];
      }
      PassOver(t[1..], rest, pathMax);
    }
  }

  lemma {:induction false} BlanksSkipped(gap: string, rest: string)
    requires Blanks(gap) && (rest == [] || !Blank(rest[0]))
    ensures SkipBlanks(gap + rest) == rest
  {
    if gap == [] {
      assert gap + rest == rest;
    } else {
      assert (gap + rest)[1..] == gap[1..] + rest;
      BlanksSkipped(gap[1..], rest);
    }
  }

  lemma {:induction false} QuotedWhole(lit: string, quote: char, rest: string)
    requires quote !in lit && '\n' !in lit && (EndsLine(rest) || rest[0] == quote)
    ensures Quoted(lit + rest, quote) == |lit|
  {
    if lit == [] {
      assert lit + rest == rest;
    } else {
      assert (lit + rest)[0] == lit[0] && lit[0] in lit;
      assert (lit + rest)[1..] == lit[1..] + rest;
      QuotedWhole(lit[1..], quote, rest);
    }
  }

  lemma {:induction false} LineSkipped(t: string, rest: string)
    requires '\n' !in t && EndsLine(rest)
    ensures SkipLine(t + rest) == rest
  {
    if t == [] {
      assert t + rest == rest;
    } else {
      assert (t + rest)[0] == t[0] && t[0] in t && (t + rest)[1..] == t[1..] + rest;
      LineSkipped(t[1..], rest);
    }
  }

  // What stands behind the opening parenthesis, when a literal does.
  lemma ArgumentQuoted(indent: string, quote: char, lit: string, rest: string, pathMax: Capacity)
    requires Blanks(indent) && IsQuote(quote) && quote !in lit && '\n' !in lit && (EndsLine(rest) || rest[0] == quote)
    ensures
      var closed := rest != [] && rest[0] == quote;
      Argument(indent + ([quote] + (lit + rest)), pathMax)
        == Found(if closed && 0 < |lit| < pathMax - 1 then Some(lit) else None, rest)
  {
    hide SkipBlanks, Quoted;
    var u := [quote] + (lit + rest);
    BlanksSkipped(indent, u);
    assert u[1..] == lit + rest;
    QuotedWhole(lit, quote, rest);
    assert u[1 + |lit|..] == rest && u[1..1 + |lit|] == lit;
  }

  lemma ArgumentMissing(indent: string, rest: string, pathMax: Capacity)
    requires Blanks(indent) && (rest == [] || (!Blank(rest[0]) && !IsQuote(rest[0])))
    ensures Argument(indent + rest, pathMax) == Found(None, rest)
  {
    hide SkipBlanks, Quoted;
    BlanksSkipped(indent, rest);
  }

  lemma CallFound(gap: string, arg: string, pathMax: Capacity)
    requires Blanks(gap)
    ensures
      var f := Argument(arg, pathMax);
      Calls("exec" + (gap + ("(" + arg)), pathMax) == (if f.lit.Some? then [f.lit.value] else []) + Calls(f.rest, pathMax)
  {
    hide SkipBlanks, Argument;
    var s := "exec" + (gap + ("(" + arg));
    assert s[4..] == gap + ("(" + arg);
    BlanksSkipped(gap, "(" + arg);
    assert ("(" + arg)[1..] == arg;
  }

  lemma Assoc(a: string, b: string, rest: string)
    ensures (a + b) + rest == a + (b + rest)
  {
  }

  lemma HeadThen(gap: string, indent: string, arg: string)
    ensures Head(gap, indent) + arg == "exec" + (gap + ("(" + (indent + arg)))
  {
    Assoc("(", indent, arg);
    Assoc(gap, "(" + indent, arg);
    Assoc("exec", gap + ("(" + indent), arg);
  }

  // A quote is neither the start of a comment nor of a call.
  lemma QuotePasses(quote: char, rest: string, pathMax: Capacity)
    requires IsQuote(quote)
    ensures Calls([quote] + rest, pathMax) == Calls(rest, pathMax)
  {
    hide SkipBlanks, Argument, SkipLine;
    assert ([quote] + rest)[1..] == rest;
    assert !("exec" <= [quote] + rest) by { assert "exec"[0] == 'e'; }
  }

  lemma CommentPasses(t: string, rest: string, pathMax: Capacity)
    requires '\n' !in t && EndsLine(rest)
    ensures Calls("#" + t + rest, pathMax) == Calls(rest, pathMax)
  {
    hide SkipBlanks, Argument, SkipLine;
    var s := "#" + t + rest;
    assert s[1..] == t + rest;
    LineSkipped(t, rest);
  }

  lemma PieceCalls(p: Piece, rest: string, pathMax: Capacity)
    requires Fits(p, rest)
    ensures Calls(Written(p) + rest, pathMax) == LiteralOf(p, pathMax) + Calls(rest, pathMax)
  {
    hide Calls, SkipLine, SkipBlanks, Argument, Silent, Blanks, Head;
    match p
    case Text(t) => PassOver(t, rest, pathMax);
    case Comment(t) => CommentPasses(t, rest, pathMax);
    case Call(gap, indent, quote, lit) =>
      var arg := [quote] + (lit + ([quote] + rest));
      Assoc([quote], lit + [quote], rest);
      Assoc(lit, [quote], rest);
      Assoc(Head(gap, indent), [quote] + (lit + [quote]), rest);
      HeadThen(gap, indent, arg);
      CallFound(gap, indent + arg, pathMax);
      ArgumentQuoted(indent, quote, lit, [quote] + rest, pathMax);
      QuotePasses(quote, rest, pathMax);
    case Broken(gap, indent, quote, lit) =>
      var arg := [quote] + (lit + rest);
      Assoc([quote], lit, rest);
      Assoc(Head(gap, indent), [quote] + lit, rest);
      HeadThen(gap, indent, arg);
      CallFound(gap, indent + arg, pathMax);
      ArgumentQuoted(indent, quote, lit, rest, pathMax);
    case Opened(gap, indent) =>
      HeadThen(gap, indent, rest);
      CallFound(gap, indent + rest, pathMax);
      ArgumentMissing(indent, rest, pathMax);
  }

  /**
   * Scanning a script finds the literals of its calls, in order, and nothing else: not what stands
   * in comments, in unclosed literals or in other literals.
   */
  lemma {:induction false} ScriptCalls(ps: seq<Piece>, pathMax: Capacity)
    requires AllFit(ps)
    ensures Calls(Script(ps), pathMax) == Literals(ps, pathMax)
  {
    hide Fits, Written, LiteralOf;
    if ps != [] {
      PieceCalls(ps[0], Script(ps[1..]), pathMax);
      ScriptCalls(ps[1..], pathMax);
    }
  }

  // ----- Every text is such a script

  lemma {:induction false} SplitBlanks(s: string) returns (gap: string)
    ensures Blanks(gap) && s == gap + SkipBlanks(s) && (SkipBlanks(s) == [] || !Blank(SkipBlanks(s)[0]))
  {
    if s != [] && Blank(s[0]) {
      var more := SplitBlanks(s[1..]);
      gap := [s[0]] + more;
      assert s == [s[0]] + s[1..];
      Assoc([s[0]], more, SkipBlanks(s[1..]));
    } else {
      gap := [];
    }
  }

  lemma {:induction false} SplitLine(s: string) returns (t: string)
    ensures '\n' !in t && s == t + SkipLine(s) && EndsLine(SkipLine(s))
  {
    if s == [] || s[0] == '\n' {
      t := [];
    } else {
      var more := SplitLine(s[1..]);
      t := [s[0]] + more;
      assert s == [s[0]] + s[1..];
      Assoc([s[0]], more, SkipLine(s[1..]));
    }
  }

  lemma {:induction false} SplitQuoted(s: string, quote: char)
    ensures
      var n := Quoted(s, quote);
      quote !in s[..n] && '\n' !in s[..n] && (EndsLine(s[n..]) || s[n] == quote)
  {
    if s != [] && s[0] != quote && s[0] != '\n' {
      SplitQuoted(s[1..], quote);
      var n := Quoted(s, quote);
      assert s[..n] == [s[0]] + s[1..][..n - 1] && s[n..] == s[1..][n - 1..];
    }
  }

  // The piece at the front of a text, and what is left.
  lemma FrontPiece(s: string) returns (p: Piece, rest: string)
    requires s != []
    ensures s == Written(p) + rest && Fits(p, rest) && |rest| < |s|
  {
    hide SkipBlanks, SkipLine, Quoted, Silent, Blanks;
    if s[0] == '#' {
      var t := SplitLine(s[1..]);
      p, rest := Comment(t), SkipLine(s[1..]);
      assert s == [s[0]] + s[1..];
      Assoc("#", t, rest);
    } else if CallHere(s) {
      p, rest := FrontCall(s);
    } else {
      p, rest := Text([s[0]]), s[1..];
      assert s == [s[0]] + s[1..];
      OneSilent(s);
    }
  }

  lemma OneSilent(s: string)
    requires s != [] && s[0] != '#' && !CallHere(s)
    ensures Silent([s[0]], s[1..])
  {
    hide CallHere;
    assert ([s[0]] + s[1..])[0..] == s;
  }

  lemma FrontCall(s: string) returns (p: Piece, rest: string)
    requires CallHere(s)
    ensures s == Written(p) + rest && Fits(p, rest) && |rest| < |s|
  {
    hide SkipBlanks, Quoted, Blanks;
    var gap := SplitBlanks(s[4..]);
    var t := SkipBlanks(s[4..]);
    var indent := SplitBlanks(t[1..]);
    var u := SkipBlanks(t[1..]);
    assert s == "exec" + s[4..] && t == "(" + t[1..];
    HeadThen(gap, indent, u);
    if u == [] || !IsQuote(u[0]) {
      p, rest := Opened(gap, indent), u;
    } else {
      var n := Quoted(u[1..], u[0]);
      SplitQuoted(u[1..], u[0]);
      var lit, after := u[1..][..n], u[1..][n..];
      assert u == [u[0]] + u[1..] && u[1..] == lit + after;
      if after != [] && after[0] == u[0] {
        p, rest := Call(gap, indent, u[0], lit), after[1..];
        assert after == [u[0]] + rest;
        Assoc(lit, [u[0]], rest);
        Assoc([u[0]], lit + [u[0]], rest);
        Assoc(Head(gap, indent), [u[0]] + (lit + [u[0]]), rest);
      } else {
        p, rest := Broken(gap, indent, u[0], lit), after;
        Assoc([u[0]], lit, rest);
        Assoc(Head(gap, indent), [u[0]] + lit, rest);
      }
    }
  }

  // Together with ScriptCalls: the scanner finds, in any text, exactly the literals of its calls.
  lemma {:induction false} EveryTextIsAScript(s: string) returns (ps: seq<Piece>)
    ensures AllFit(ps) && Script(ps) == s
    decreases |s|
  {
    hide Fits, Written;
    if s == [] {
      ps := [];
    } else {
      var p, rest := FrontPiece(s);
      var more := EveryTextIsAScript(rest);
      ps := [p] + more;
      assert ps[1..] == more;
    }
  }

  // ----- The scan

  // The list after working through the literals of a file: depth first, each path once.
  function Visit(w: World, max: nat, list: seq<string>, path: string, lits: seq<string>): (r: seq<string>)
    requires |list| <= max
    ensures list <= r && |r| <= max
    decreases max - |list|, |lits|
  {
    if lits == [] then list
    else
      var a := Resolve(w, path, lits[0]);
      var next := VisitOne(w, max, list, a);
      Visit(w, max, next, path, lits[1..])
  }

  function VisitOne(w: World, max: nat, list: seq<string>, a: string): (r: seq<string>)
    requires |list| <= max
    ensures list <= r && |r| <= max
    decreases max - |list|, 0
  {
    if a in list || |list| == max then list
    else if a in w.files then Visit(w, max, list + [a], a, CallsOf(w, a))
    else list + [a]
  }

  // ----- Reachability

  ghost predicate Edge(w: World, a: string, b: string) {
    a in w.files && exists lit :: lit in CallsOf(w, a) && b == Resolve(w, a, lit)
  }

  ghost predicate Chain(w: World, c: seq<string>) {
    |c| >= 2 && forall i :: 0 < i < |c| ==> Edge(w, c[i - 1], c[i])
  }

  // b can be reached from a by one step or more.
  ghost predicate Reachable(w: World, a: string, b: string) {
    exists c :: Chain(w, c) && c[0] == a && c[|c| - 1] == b
  }

  lemma EdgeReaches(w: World, a: string, b: string)
    requires Edge(w, a, b)
    ensures Reachable(w, a, b)
  {
    assert Chain(w, [a, b]);
  }

  lemma ReachesOver(w: World, a: string, b: string, c: string)
    requires Edge(w, a, b) && Reachable(w, b, c)
    ensures Reachable(w, a, c)
  {
    hide Edge;
    var chain :| Chain(w, chain) && chain[0] == b && chain[|chain| - 1] == c;
    var longer := [a] + chain;
    forall i | 0 < i < |longer| ensures Edge(w, longer[i - 1], longer[i]) {
      if i > 1 { assert longer[i - 1] == chain[i - 2] && longer[i] == chain[i - 1]; }
    }
    assert Chain(w, longer) && longer[|longer| - 1] == c;
  }

  // ----- What a scan leaves

  ghost predicate NoDuplicates(list: seq<string>) {
    forall i, j :: 0 <= i < j < |list| ==> list[i] != list[j]
  }

  ghost predicate Closed(w: World, a: string, list: seq<string>) {
    a in w.files ==> AllIn(w, a, CallsOf(w, a), list)
  }

  ghost predicate AllIn(w: World, a: string, lits: seq<string>, list: seq<string>) {
    forall lit :: lit in lits ==> Resolve(w, a, lit) in list
  }

  // Everything added to list0 is reachable from a, and nothing is missing while there is room.
  ghost predicate Explored(w: World, max: nat, list0: seq<string>, list: seq<string>, a: string, lits: seq<string>) {
    && list0 <= list && NoDuplicates(list)
    && (forall i :: |list0| <= i < |list| ==> Reachable(w, a, list[i]))
    && (|list| < max ==> AllIn(w, a, lits, list) && forall i :: |list0| <= i < |list| ==> Closed(w, list[i], list))
  }

  lemma {:induction false} VisitExplores(w: World, max: nat, list: seq<string>, path: string, lits: seq<string>)
    requires |list| <= max && NoDuplicates(list)
    requires path in w.files && forall lit :: lit in lits ==> lit in CallsOf(w, path)
    ensures Explored(w, max, list, Visit(w, max, list, path, lits), path, lits)
    decreases max - |list|, |lits|
  {
    if lits != [] {
      var a := Resolve(w, path, lits[0]);
      var next := VisitOne(w, max, list, a);
      assert Edge(w, path, a);
      VisitOneExplores(w, max, list, path, a);
      VisitExplores(w, max, next, path, lits[1..]);
      ExploredThen(w, max, list, next, Visit(w, max, next, path, lits[1..]), path, lits);
    }
  }

  lemma {:induction false} VisitOneExplores(w: World, max: nat, list: seq<string>, path: string, a: string)
    requires |list| <= max && NoDuplicates(list) && Edge(w, path, a)
    ensures
      var r := VisitOne(w, max, list, a);
      Explored(w, max, list, r, path, []) && (|r| < max ==> a in r)
    decreases max - |list|, 0
  {
    EdgeReaches(w, path, a);
    if a !in list && |list| < max {
      var more := list + [a];
      var r := VisitOne(w, max, list, a);
      assert more[|list|] == a;
      if a in w.files {
        VisitExplores(w, max, more, a, CallsOf(w, a));
        forall i | |list| <= i < |r| ensures Reachable(w, path, r[i]) {
          if i > |list| { ReachesOver(w, path, a, r[i]); }
        }
      }
    }
  }

  lemma ExploredThen(w: World, max: nat, list: seq<string>, next: seq<string>, r: seq<string>, path: string, lits: seq<string>)
    requires lits != [] && |next| <= |r| <= max
    requires Explored(w, max, list, next, path, []) && (|next| < max ==> Resolve(w, path, lits[0]) in next)
    requires Explored(w, max, next, r, path, lits[1..])
    ensures Explored(w, max, list, r, path, lits)
  {
    hide Resolve, Calls, Reachable;
    forall i | |list| <= i < |r| ensures Reachable(w, path, r[i]) {
      if i < |next| { assert r[i] == next[i]; }
    }
    if |r| < max {
      forall lit | lit in lits ensures Resolve(w, path, lit) in r {
        assert lit == lits[0] || lit in lits[1..];
      }
      forall i | |list| <= i < |r| ensures Closed(w, r[i], r) {
        if i < |next| { assert r[i] == next[i]; }
      }
    }
  }

  // A set closed under edges that holds the first step holds everything reachable.
  lemma {:induction false} ClosedHoldsChain(w: World, c: seq<string>, list: seq<string>)
    requires Chain(w, c)
    requires Closed(w, c[0], list) && forall x :: x in list ==> Closed(w, x, list)
    ensures c[|c| - 1] in list
  {
    var n := |c| - 1;
    assert Edge(w, c[n - 1], c[n]);
    if n > 1 {
      var d := c[..n];
      forall i | 0 < i < |d| ensures Edge(w, d[i - 1], d[i]) {
        assert d[i - 1] == c[i - 1] && d[i] == c[i];
      }
      ClosedHoldsChain(w, d, list);
    }
  }

  // The list nexs_scan_deps leaves for a readable start file.
  function Deps(w: World, max: nat, start: string): seq<string>
    requires start in w.files
  {
    Visit(w, max, [], start, CallsOf(w, start))
  }

  /**
   * No path is listed twice, every listed path is reachable, and if a slot is left over the list
   * holds every reachable path.
   */
  lemma DepsAreReachable(w: World, max: nat, start: string)
    requires start in w.files
    ensures
      var list := Deps(w, max, start);
      && NoDuplicates(list) && |list| <= max
      && (forall p :: p in list ==> Reachable(w, start, p))
      && (|list| < max ==> forall p :: Reachable(w, start, p) ==> p in list)
  {
    hide Resolve, Calls, Visit;
    var list := Deps(w, max, start);
    VisitExplores(w, max, [], start, CallsOf(w, start));
    if |list| < max {
      forall p | Reachable(w, start, p) ensures p in list {
        var c :| Chain(w, c) && c[0] == start && c[|c| - 1] == p;
        ClosedHoldsChain(w, c, list);
      }
    }
  }

  lemma {:induction false} DistinctCount(list: seq<string>)
    requires NoDuplicates(list)
    ensures |set p | p in list| == |list|
  {
    if list != [] {
      var n := |list| - 1;
      var front := list[..n];
      DistinctCount(front);
      assert (set p | p in list) == (set p | p in front) + {list[n]};
    }
  }

  lemma SubsetEqual(a: set<string>, b: set<string>)
    requires a <= b && |a| >= |b|
    ensures a == b
  {
    assert b == a + (b - a);
    assert |b| == |a| + |b - a|;
    assert b - a == {};
  }

  // Every path that any call in any file stands for.
  ghost function Targets(w: World): set<string> {
    set a, lit | a in w.files && lit in CallsOf(w, a) :: Resolve(w, a, lit)
  }

  // The reachable paths, of which there are finitely many.
  ghost function ReachableSet(w: World, start: string): set<string> {
    set p | p in Targets(w) && Reachable(w, start, p)
  }

  lemma ReachableAreTargets(w: World, start: string, p: string)
    ensures p in ReachableSet(w, start) <==> Reachable(w, start, p)
  {
    if Reachable(w, start, p) {
      var c :| Chain(w, c) && c[0] == start && c[|c| - 1] == p;
      assert Edge(w, c[|c| - 2], c[|c| - 1]);
    }
  }

  /**
   * The scan finds as many paths as there are, or as many as fit; it is complete exactly when the
   * reachable paths are no more than the slots.
   */
  lemma DepsCount(w: World, max: nat, start: string)
    requires start in w.files
    ensures
      var list, all := Deps(w, max, start), ReachableSet(w, start);
      && |list| == (if |all| <= max then |all| else max)
      && ((forall p :: Reachable(w, start, p) ==> p in list) <==> |all| <= max)
  {
    hide Deps, Reachable, ReachableSet;
    var list, all := Deps(w, max, start), ReachableSet(w, start);
    DepsAreReachable(w, max, start);
    forall p ensures p in all <==> Reachable(w, start, p) { ReachableAreTargets(w, start, p); }
    var got := set p | p in list;
    DistinctCount(list);
    assert got <= all;
    assert |got| <= |all| by { assert all == got + (all - got); }
    if |list| < max { assert got == all; }
    if |got| >= |all| { SubsetEqual(got, all); }
    if forall p :: Reachable(w, start, p) ==> p in list { assert all <= got; }
  }

  // A start file with two dependencies and one slot: the second is not listed.
  lemma OneSlotTooFew()
    ensures
      var w := World(map["m" := "exec('a') exec('b')"], 512);
      && Reachable(w, "m", "a") && Reachable(w, "m", "b") && Deps(w, 1, "m") == ["a"]
  {
    var w := World(map["m" := "exec('a') exec('b')"], 512);
    TwoCalls();
    assert CallsOf(w, "m") == ["a", "b"];
    NoSlashes(w, "a");
    NoSlashes(w, "b");
    assert Edge(w, "m", "a") && Edge(w, "m", "b");
    EdgeReaches(w, "m", "a");
    EdgeReaches(w, "m", "b");
    assert VisitOne(w, 1, [], "a") == ["a"] && VisitOne(w, 1, ["a"], "b") == ["a"];
    assert ["a", "b"][1..] == ["b"] && ["b"][1..] == [];
    VisitNothing(w, 1, ["a"], "m");
    assert Visit(w, 1, ["a"], "m", ["b"]) == ["a"];
  }

  lemma NoSlashes(w: World, rel: string)
    requires w.files.Keys == {"m"} && w.pathMax == 512 && |rel| == 1 && rel[0] != '/' && rel != "m"
    ensures Resolve(w, "m", rel) == rel
  {
    assert AfterSlash("m") == 0;
    assert Dirname(w, "m") == ".";
  }

  // The literals of that text, read off piece by piece.
  lemma TwoCalls()
    ensures Calls("exec('a') exec('b')", 512) == ["a", "b"]
  {
    hide Calls;
    SilentBits();
    LastPieces();
    FirstPieces();
    ScriptCalls(ExamplePieces(), 512);
  }

  function ExamplePieces(): seq<Piece> {
    [Call("", "", '\'', "a"), Text(") ")] + [Call("", "", '\'', "b"), Text(")")]
  }

  lemma OneCall(lit: string, rest: string)
    ensures Written(Call("", "", '\'', lit)) + rest == "exec('" + lit + "'" + rest
  {
    assert Head("", "") == "exec(";
    assert Written(Call("", "", '\'', lit)) == "exec('" + lit + "'";
  }

  lemma LastPieces()
    ensures
      var b := [Call("", "", '\'', "b"), Text(")")];
      Script(b) == "exec('b')" && (Silent(")", "") ==> AllFit(b)) && Literals(b, 512) == ["b"]
  {
    hide Silent;
    var b := [Call("", "", '\'', "b"), Text(")")];
    var c := b[1..];
    assert c == [Text(")")] && c[1..] == [] && Script(c) == ")";
    OneCall("b", ")");
  }

  lemma FirstPieces()
    requires Silent(") ", "exec('b')") && Silent(")", "")
    ensures Script(ExamplePieces()) == "exec('a') exec('b')" && AllFit(ExamplePieces()) && Literals(ExamplePieces(), 512) == ["a", "b"]
  {
    hide Silent, Written, Script, AllFit, Fits, Literals;
    var a, ps, b := Call("", "", '\'', "a"), ExamplePieces(), [Call("", "", '\'', "b"), Text(")")];
    var t := ps[1..];
    LastPieces();
    assert ps[0] == a && t[0] == Text(") ") && t[1..] == b;
    TextPiece(") ");
    ScriptNext(t);
    ScriptNext(ps);
    ExampleText();
    PiecesFit(") exec('b')");
  }

  lemma PiecesFit(rest: string)
    ensures Fits(Call("", "", '\'', "a"), rest) && (Silent(") ", "exec('b')") ==> Fits(Text(") "), "exec('b')"))
    ensures LiteralOf(Call("", "", '\'', "a"), 512) == ["a"] && LiteralOf(Text(") "), 512) == []
  {
    hide Silent;
  }

  lemma ExampleText()
    ensures ") " + "exec('b')" == ") exec('b')"
    ensures Written(Call("", "", '\'', "a")) + ") exec('b')" == "exec('a') exec('b')"
  {
    hide Written;
    OneCall("a", ") exec('b')");
  }

  lemma ScriptNext(ps: seq<Piece>)
    requires ps != []
    ensures Script(ps) == Written(ps[0]) + Script(ps[1..]) && (AllFit(ps) <==> Fits(ps[0], Script(ps[1..])) && AllFit(ps[1..]))
    ensures Literals(ps, 512) == LiteralOf(ps[0], 512) + Literals(ps[1..], 512)
  {
    hide Fits, Written;
  }

  lemma TextPiece(t: string)
    ensures Written(Text(t)) == t
  {
  }

  lemma SilentBits()
    ensures Silent(") ", "exec('b')") && Silent(")", "")
  {
    var s := ") exec('b')";
    assert ") " + "exec('b')" == s && s[0..][0] == ')' && s[1..][0] == ' ';
    assert ")" + "" == ")" && |")"[0..]| == 1;
  }

  // ----- The program

  datatype DepEntry = DepEntry(path: string, src: Option<string>)

  function Paths(es: seq<DepEntry>): (r: seq<string>)
    ensures |r| == |es|
  {
    seq(|es|, i requires 0 <= i < |es| => es[i].path)
  }

  method AlreadySeen(deps: array<DepEntry>, count: nat, path: string) returns (seen: bool)
    requires count <= deps.Length
    ensures seen <==> path in Paths(deps[..count])
  {
    ghost var list := Paths(deps[..count]);
    for i := 0 to count
      invariant path !in list[..i]
    {
      assert list[i] == deps[i].path && list[..i + 1] == list[..i] + [list[i]];
      if deps[i].path == path { return true; }
    }
    assert list[..count] == list;
    return false;
  }

  method SkipBlanksAt(src: string, p: nat) returns (q: nat)
    requires p <= |src|
    ensures p <= q <= |src| && src[q..] == SkipBlanks(src[p..])
  {
    q := p;
    while q < |src| && Blank(src[q])
      invariant p <= q <= |src| && SkipBlanks(src[q..]) == SkipBlanks(src[p..])
    {
      assert src[q..][1..] == src[q + 1..];
      q := q + 1;
    }
  }

  method SkipLineAt(src: string, p: nat) returns (q: nat)
    requires p <= |src|
    ensures p <= q <= |src| && src[q..] == SkipLine(src[p..])
  {
    q := p;
    while q < |src| && src[q] != '\n'
      invariant p <= q <= |src| && SkipLine(src[q..]) == SkipLine(src[p..])
    {
      assert src[q..][1..] == src[q + 1..];
      q := q + 1;
    }
  }

  method QuotedAt(src: string, p: nat, quote: char) returns (q: nat)
    requires p <= |src|
    ensures q == p + Quoted(src[p..], quote) <= |src|
  {
    q := p;
    while q < |src| && src[q] != quote && src[q] != '\n'
      invariant p <= q <= |src| && q + Quoted(src[q..], quote) == p + Quoted(src[p..], quote)
    {
      assert src[q..][1..] == src[q + 1..];
      q := q + 1;
    }
  }

  method ArgumentAt(src: string, p: nat, pathMax: Capacity) returns (lit: Option<string>, q: nat)
    requires p <= |src|
    ensures p <= q <= |src| && Found(lit, src[q..]) == Argument(src[p..], pathMax)
  {
    hide SkipBlanks, Quoted;
    q := SkipBlanksAt(src, p);
    if q == |src| || (src[q] != '"' && src[q] != '\'') { return None, q; }
    var quote, start := src[q], q + 1;
    ghost var u := src[q..];
    assert u[1..] == src[start..];
    q := QuotedAt(src, start, quote);
    var len := q - start;
    assert u[1 + len..] == src[q..] && u[1..1 + len] == src[start..q];
    lit := if q < |src| && src[q] == quote && 0 < len < pathMax - 1 then Some(src[start..q]) else None;
  }

  // Is there a call at p?  Then its argument starts at q.
  method CallAt(src: string, p: nat) returns (call: bool, q: nat)
    requires p <= |src|
    ensures call == CallHere(src[p..])
    ensures call ==> p < q <= |src| && src[q..] == SkipBlanks(src[p..][4..])[1..]
  {
    if p + 4 <= |src| && src[p..p + 4] == "exec" {
      assert src[p..][..4] == src[p..p + 4] && src[p..][4..] == src[p + 4..];
      q := SkipBlanksAt(src, p + 4);
      call := q < |src| && src[q] == '(';
      q := q + 1;
    } else {
      call, q := false, p;
    }
  }

  // Entries a scan added are still without their text, older ones are untouched.
  twostate predicate Appended(deps: array<DepEntry>, from: nat, to: nat) reads deps {
    && from <= to <= deps.Length && deps[..from] == old(deps[..from])
    && forall i :: from <= i < to ==> deps[i].src.None?
  }

  // A found dependency: recorded and followed if it is new and there is room.
  method AddDep(w: World, a: string, deps: array<DepEntry>, count: nat, max: nat) returns (n: nat)
    requires count <= max <= deps.Length
    modifies deps
    ensures count <= n <= max && Appended(deps, count, n)
    ensures Paths(deps[..n]) == VisitOne(w, max, old(Paths(deps[..count])), a)
    decreases max - count, 0
  {
    hide Visit;
    var seen := AlreadySeen(deps, count, a);
    if seen || count == max { return count; }
    ghost var list := Paths(deps[..count]);
    deps[count] := DepEntry(a, None);
    n := count + 1;
    assert Paths(deps[..n]) == list + [a];
    if a in w.files {
      n := ScanSource(w, a, w.files[a], deps, n, max);
    }
  }

  /**
   * Scan one text.  The recursion ends because every nested scan has one slot fewer and the loop
   * always moves on in the text.
   */
  method ScanSource(w: World, path: string, src: string, deps: array<DepEntry>, count: nat, max: nat) returns (n: nat)
    requires count <= max <= deps.Length
    modifies deps
    ensures count <= n <= max && Appended(deps, count, n)
    ensures Paths(deps[..n]) == Visit(w, max, old(Paths(deps[..count])), path, Calls(src, w.pathMax))
    decreases max - count, 1
  {
    hide Visit, VisitOne, Resolve, Calls, CallHere, Argument, SkipLine, SkipBlanks, Paths;
    n := count;
    var p := 0;
    assert src[0..] == src;
    ghost var result := Visit(w, max, Paths(deps[..n]), path, Calls(src, w.pathMax));
    while p < |src|
      invariant p <= |src| && count <= n <= max && Appended(deps, count, n)
      invariant Visit(w, max, Paths(deps[..n]), path, Calls(src[p..], w.pathMax)) == result
    {
      CallsNext(src[p..], w.pathMax);
      assert src[p..][1..] == src[p + 1..];
      if src[p] == '#' {
        p := SkipLineAt(src, p + 1);
        continue;
      }
      var call, q := CallAt(src, p);
      if call {
        var lit;
        lit, q := ArgumentAt(src, q, w.pathMax);
        VisitCalls(w, max, Paths(deps[..n]), path, lit, src[q..]);
        if lit.Some? {
          n := AddDep(w, Resolve(w, path, lit.value), deps, n, max);
        }
        p := q;
        continue;
      }
      p := p + 1;
    }
    CallsNext(src[p..], w.pathMax);
    VisitNothing(w, max, Paths(deps[..n]), path);
  }

  // One round of the scanner's loop.
  lemma CallsNext(s: string, pathMax: Capacity)
    ensures s == [] ==> Calls(s, pathMax) == []
    ensures s != [] && s[0] == '#' ==> Calls(s, pathMax) == Calls(SkipLine(s[1..]), pathMax)
    ensures s != [] && s[0] != '#' && !CallHere(s) ==> Calls(s, pathMax) == Calls(s[1..], pathMax)
    ensures s != [] && s[0] != '#' && CallHere(s) ==>
      var f := Argument(SkipBlanks(s[4..])[1..], pathMax);
      Calls(s, pathMax) == (if f.lit.Some? then [f.lit.value] else []) + Calls(f.rest, pathMax)
  {
  }

  lemma VisitNothing(w: World, max: nat, list: seq<string>, path: string)
    requires |list| <= max
    ensures Visit(w, max, list, path, []) == list
  {
  }

  lemma VisitCalls(w: World, max: nat, list: seq<string>, path: string, lit: Option<string>, rest: string)
    requires |list| <= max
    ensures
      var more := Calls(rest, w.pathMax);
      Visit(w, max, list, path, (if lit.Some? then [lit.value] else []) + more) ==
        Visit(w, max, if lit.Some? then VisitOne(w, max, list, Resolve(w, path, lit.value)) else list, path, more)
  {
    var more := Calls(rest, w.pathMax);
    if lit.Some? {
      assert ([lit.value] + more)[1..] == more;
    } else {
      assert [] + more == more;
    }
  }

  /**
   * nexs_scan_deps: the dependencies of a start file with their texts.  Nothing is listed for a
   * start file that cannot be read.
   */
  method ScanDeps(w: World, start: string, deps: array<DepEntry>, max: int) returns (n: nat)
    requires max <= deps.Length
    modifies deps
    ensures max <= 0 || start !in w.files ==> n == 0 && deps[..] == old(deps[..])
    ensures max > 0 && start in w.files ==> n <= max && Paths(deps[..n]) == Deps(w, max, start)
    ensures n <= deps.Length && forall i :: 0 <= i < n ==>
      deps[i].src == if deps[i].path in w.files then Some(w.files[deps[i].path]) else None
  {
    if max <= 0 || start !in w.files { return 0; }
    n := ScanSource(w, start, w.files[start], deps, 0, max);
    ghost var list := Paths(deps[..n]);
    for i := 0 to n
      invariant Paths(deps[..n]) == list
      invariant forall j :: i <= j < n ==> deps[j].src.None?
      invariant forall j :: 0 <= j < i ==> deps[j].src == if deps[j].path in w.files then Some(w.files[deps[j].path]) else None
    {
      if deps[i].src.None? {
        var path := deps[i].path;
        assert list[i] == path;
        deps[i] := DepEntry(path, if path in w.files then Some(w.files[path]) else None);
      }
    }
  }
}

/** Canonical paths: cutting a path into components, resolving "." and "..", joining again. */
module Path {

  const SEPARATOR := '/'
  const UP := ".."
  const DOT := "."

  // ----- components

  /** Where the first token of s ends, if s starts with one. */
  function TokenEnd(s: string): (k: nat)
    ensures k <= |s| && SEPARATOR !in s[..k] && (k < |s| ==> s[k] == SEPARATOR)
  {
    if s == [] || s[0] == SEPARATOR then 0 else 1 + TokenEnd(s[1..])
  }

  /** The longest stretches of s without a separator. */
  function Tokens(s: string): seq<string>
    decreases |s|
  {
    if s == [] then []
    else if s[0] == SEPARATOR then Tokens(s[1..])
    else [s[..TokenEnd(s)]] + Tokens(s[TokenEnd(s)..])
  }

  predicate IsComponent(c: string) { c != [] && SEPARATOR !in c }

  predicate AreComponents(cs: seq<string>) {
    forall i :: 0 <= i < |cs| ==> IsComponent(cs[i])
  }

  lemma {:induction false} TokensAreComponents(s: string)
    ensures AreComponents(Tokens(s))
    decreases |s|
  {
    if s != [] {
      if s[0] == SEPARATOR {
        TokensAreComponents(s[1..]);
      } else {
        TokensAreComponents(s[TokenEnd(s)..]);
      }
    }
  }

  lemma {:induction false} TokenEndConcat(s: string, r: string)
    requires r == [] || r[0] == SEPARATOR
    ensures TokenEnd(s + r) == TokenEnd(s)
  {
    if s == [] {
      assert s + r == r;
    } else if s[0] != SEPARATOR {
      assert (s + r)[1..] == s[1..] + r;
      TokenEndConcat(s[1..], r);
    }
  }

  lemma FirstToken(a: string, b: string)
    requires a != [] && a[0] != SEPARATOR
    ensures var s, k := a + [SEPARATOR] + b, TokenEnd(a);
            && 0 < k && Tokens(a) == [a[..k]] + Tokens(a[k..])
            && Tokens(s) == [a[..k]] + Tokens(a[k..] + [SEPARATOR] + b)
  {
    var s, k := a + [SEPARATOR] + b, TokenEnd(a);
    assert s == a + ([SEPARATOR] + b);
    TokenEndConcat(a, [SEPARATOR] + b);
    assert s[..k] == a[..k] && s[k..] == a[k..] + [SEPARATOR] + b;
  }

  /** A separator between two paths separates their components. */
  lemma {:induction false} TokensOfConcat(a: string, b: string)
    ensures Tokens(a + [SEPARATOR] + b) == Tokens(a) + Tokens(b)
    decreases |a|
  {
    var s := a + [SEPARATOR] + b;
    if a == [] {
      assert s[1..] == b;
    } else if a[0] == SEPARATOR {
      assert s[1..] == a[1..] + [SEPARATOR] + b;
      TokensOfConcat(a[1..], b);
    } else {
      FirstToken(a, b);
      TokensOfConcat(a[TokenEnd(a)..], b);
    }
  }

  /** Each component with a separator in front. */
  function Join(cs: seq<string>): string {
    if cs == [] then [] else Join(cs[..|cs| - 1]) + [SEPARATOR] + cs[|cs| - 1]
  }

  lemma TokensOfOne(c: string)
    requires IsComponent(c)
    ensures Tokens(c) == [c]
  {
    assert TokenEnd(c) == |c|;
    assert c[..|c|] == c;
  }

  /** Cutting up a joined path gives back its components. */
  lemma {:induction false} TokensOfJoin(cs: seq<string>)
    requires AreComponents(cs)
    ensures Tokens(Join(cs)) == cs
  {
    if cs != [] {
      var n := |cs| - 1;
      TokensOfJoin(cs[..n]);
      TokensOfConcat(Join(cs[..n]), cs[n]);
      TokensOfOne(cs[n]);
    }
  }

  // ----- resolving

  /** What one component does to those before it. */
  function Push(out: seq<string>, c: string): seq<string> {
    if c == UP then (if out == [] then out else out[..|out| - 1])
    else if c == DOT then out
    else out + [c]
  }

  function Walk(out: seq<string>, cs: seq<string>): seq<string> {
    if cs == [] then out else Push(Walk(out, cs[..|cs| - 1]), cs[|cs| - 1])
  }

  lemma {:induction false} WalkConcat(out: seq<string>, a: seq<string>, b: seq<string>)
    ensures Walk(out, a + b) == Walk(Walk(out, a), b)
  {
    if b == [] {
      assert a + b == a;
    } else {
      var n := |b| - 1;
      assert (a + b)[..|a + b| - 1] == a + b[..n];
      WalkConcat(out, a, b[..n]);
    }
  }

  lemma {:induction false} WalkComponents(out: seq<string>, cs: seq<string>)
    requires AreComponents(out) && AreComponents(cs)
    ensures AreComponents(Walk(out, cs))
  {
    if cs != [] { WalkComponents(out, cs[..|cs| - 1]); }
  }

  /** What a relative path starts from: the components of the working directory as they are. */
  function Base(cwd: string, input: string): seq<string> {
    if |input| > 0 && input[0] != SEPARATOR then Tokens(cwd) else []
  }

  /** The components of the canonical path. */
  function Components(cwd: string, input: string): seq<string> {
    Walk(Base(cwd, input), Tokens(input))
  }

  function Canonical(cwd: string, input: string): string {
    Spelled(Components(cwd, input))
  }

  function Spelled(cs: seq<string>): string {
    if cs == [] then [SEPARATOR] else Join(cs)
  }

  lemma ComponentsAre(cwd: string, input: string)
    ensures AreComponents(Components(cwd, input))
  {
    TokensAreComponents(cwd);
    TokensAreComponents(input);
    WalkComponents(Base(cwd, input), Tokens(input));
  }

  /** The result is a path whose components are the ones that were worked out. */
  lemma TokensOfCanonical(cwd: string, input: string)
    ensures Tokens(Canonical(cwd, input)) == Components(cwd, input)
    ensures Canonical(cwd, input)[..1] == [SEPARATOR]
  {
    ComponentsAre(cwd, input);
    TokensOfJoin(Components(cwd, input));
    JoinStarts(Components(cwd, input));
  }

  lemma {:induction false} JoinStarts(cs: seq<string>)
    ensures cs != [] ==> Join(cs)[..1] == [SEPARATOR]
  {
    if |cs| > 1 { JoinStarts(cs[..|cs| - 1]); }
  }

  // ----- "." and ".."

  predicate Plain(c: string) { c != UP && c != DOT }

  predicate AllPlain(cs: seq<string>) {
    forall i :: 0 <= i < |cs| ==> Plain(cs[i])
  }

  /** How many of n components are left standing when cs are walked, and whether what is on top
      of them came from cs. */
  function Left(n: nat, cs: seq<string>): (r: (nat, nat))
    ensures r.0 <= n
  {
    if cs == [] then (n, 0)
    else
      var (kept, added) := Left(n, cs[..|cs| - 1]);
      var c := cs[|cs| - 1];
      if c == UP then (if added > 0 then (kept, added - 1) else if kept > 0 then (kept - 1, 0) else (0, 0))
      else if c == DOT then (kept, added)
      else (kept, added + 1)
  }

  /** The result is the part of the start that is left, with plain components on top. */
  lemma {:induction false} WalkSplits(out: seq<string>, cs: seq<string>)
    ensures var (kept, added) := Left(|out|, cs); var r := Walk(out, cs);
            |r| == kept + added && r[..kept] == out[..kept] && AllPlain(r[kept..])
  {
    if cs != [] {
      WalkSplits(out, cs[..|cs| - 1]);
    }
  }

  /** "." and ".." come into the result from the working directory only: exactly if the part of
      it that is left has one. */
  lemma PlainIff(cwd: string, input: string)
    ensures AllPlain(Components(cwd, input)) <==>
            AllPlain(Base(cwd, input)[..Left(|Base(cwd, input)|, Tokens(input)).0])
    ensures AllPlain(Tokens(cwd)) ==> AllPlain(Components(cwd, input))
  {
    var base, cs := Base(cwd, input), Tokens(input);
    WalkSplits(base, cs);
    var kept := Left(|base|, cs).0;
    var r := Walk(base, cs);
    assert r == r[..kept] + r[kept..];
    assert AllPlain(r) ==> forall i :: 0 <= i < kept ==> Plain(r[i]) && r[i] == base[..kept][i];
  }

  lemma {:induction false} PlainWalk(cs: seq<string>)
    ensures |Walk([], cs)| <= |cs|
    ensures Walk([], cs) == cs <==> AllPlain(cs)
  {
    if cs != [] {
      var n := |cs| - 1;
      PlainWalk(cs[..n]);
      assert cs == cs[..n] + [cs[n]];
    }
  }

  /** Making a canonical path canonical again changes nothing, exactly if it has no "." and no
      ".." in it; from a canonical working directory it never does. */
  lemma CanonicalTwice(cwd: string, input: string, cwd': string)
    ensures Canonical(cwd', Canonical(cwd, input)) == Canonical(cwd, input) <==> AllPlain(Components(cwd, input))
    ensures AllPlain(Tokens(cwd)) ==> Canonical(cwd', Canonical(cwd, input)) == Canonical(cwd, input)
  {
    var r := Canonical(cwd, input);
    TokensOfCanonical(cwd, input);
    assert r[0] == r[..1][0];
    assert Components(cwd', r) == Walk([], Components(cwd, input));
    PlainWalk(Components(cwd, input));
    TokensOfCanonical(cwd', r);
    PlainIff(cwd, input);
  }

  /** Going to a and from there to a relative b is going to a/b. */
  lemma Composes(cwd: string, a: string, b: string)
    requires b != [] && b[0] != SEPARATOR
    ensures Canonical(Canonical(cwd, a), b) == Canonical(cwd, a + [SEPARATOR] + b)
  {
    TokensOfCanonical(cwd, a);
    TokensOfConcat(a, b);
    WalkConcat(Base(cwd, a), Tokens(a), Tokens(b));
  }

  /** What follows a path, spelled out: a plain component comes behind it, "." does nothing, and ".."
      takes back the plain component in front of it, if there is one. */
  lemma OneMore(cwd: string, a: string, c: string)
    requires c != "" && '/' !in c && c != "." && c != ".."
    ensures Canonical(cwd, a + "/" + c) == (if Canonical(cwd, a) == "/" then "" else Canonical(cwd, a)) + "/" + c
    ensures Canonical(cwd, a + "/" + ".") == Canonical(cwd, a)
    ensures Canonical(cwd, (a + "/" + c) + "/" + "..") == Canonical(cwd, a)
  {
    Then(cwd, a, c);
    Then(cwd, a, ".");
    Then(cwd, a + "/" + c, "..");
    var cs := Components(cwd, a);
    ComponentsAre(cwd, a);
    assert (cs + [c])[..|cs|] == cs;
    if cs != [] { JoinLonger(cs); } else { assert (cs + [c])[|cs|] == c && Join(cs + [c]) == [] + "/" + c; }
  }

  /** Joined components are longer than the path of the root. */
  lemma JoinLonger(cs: seq<string>)
    requires AreComponents(cs) && cs != []
    ensures |Join(cs)| > 1
  {
  }

  lemma Then(cwd: string, a: string, c: string)
    requires IsComponent(c)
    ensures Components(cwd, a + "/" + c) == Push(Components(cwd, a), c)
  {
    TokensOfConcat(a, c);
    TokensOfOne(c);
    assert (a == "" || a[0] == SEPARATOR) <==> (a + "/" + c)[0] == SEPARATOR;
    assert Tokens(a + "/" + c) == Tokens(a) + [c];
    assert (Tokens(a) + [c])[..|Tokens(a)|] == Tokens(a);
  }

  /** Where paths start: the root is its own parent, a path from the root does not look at the
      working directory, and any other goes on from there. */
  lemma Starts(cwd: string, input: string)
    ensures Canonical(cwd, "/") == "/" && Canonical(cwd, "/..") == "/" && Canonical(cwd, "") == "/"
    ensures input == "" || input[0] == '/' ==> forall cwd' :: Canonical(cwd', input) == Canonical(cwd, input)
    ensures input != "" && input[0] != '/' && cwd != "" && cwd[0] == '/' && AllPlain(Tokens(cwd)) ==>
              forall cwd' :: Canonical(cwd', cwd + "/" + input) == Canonical(cwd, input)
  {
    assert Tokens("/") == [] && Tokens("..") == [".."] by { TokensOfOne(".."); }
    assert "/.."[1..] == "..";
    assert Tokens("/..") == Tokens("..");
    TokensOfConcat(cwd, input);
    WalkConcat([], Tokens(cwd), Tokens(input));
    PlainWalk(Tokens(cwd));
    assert cwd != "" ==> (cwd + "/" + input)[0] == cwd[0];
  }

  // ----- the working directory of a task

  const ROOT: string := [SEPARATOR]

  /** A chdir, and whether what it leads to is a directory at that time. */
  datatype Move = Move(path: string, accepted: bool)

  /** sys_chdir: the working directory becomes the canonical path, or stays. */
  function Chdir(cwd: string, m: Move): string {
    if m.accepted then Canonical(cwd, m.path) else cwd
  }

  /** The working directory after a run of chdirs; children take over that of their parent. */
  function Chdirs(cwd: string, moves: seq<Move>): string {
    if moves == [] then cwd else Chdir(Chdirs(cwd, moves[..|moves| - 1]), moves[|moves| - 1])
  }

  /** Every task starts in the root, so no working directory ever has a "." or a ".." in it: what
      is canonical stays as it is, whatever is canonicalised from whatever working directory. */
  lemma CwdIsCanonical(moves: seq<Move>, input: string, later: string)
    ensures var cwd := Chdirs(ROOT, moves);
            && AllPlain(Tokens(cwd)) && Canonical(later, cwd) == cwd
            && AllPlain(Components(cwd, input)) && Canonical(later, Canonical(cwd, input)) == Canonical(cwd, input)
  {
    CwdIsPlain(moves);
    PlainIff(Chdirs(ROOT, moves), input);
    CanonicalTwice(Chdirs(ROOT, moves), input, later);
    CwdIsRootOrResult(moves);
    var start, path :| AllPlain(Tokens(start)) && Chdirs(ROOT, moves) == Canonical(start, path);
    CanonicalTwice(start, path, later);
  }

  lemma {:induction false} CwdIsPlain(moves: seq<Move>)
    ensures AllPlain(Tokens(Chdirs(ROOT, moves)))
  {
    if moves != [] {
      var before, m := Chdirs(ROOT, moves[..|moves| - 1]), moves[|moves| - 1];
      CwdIsPlain(moves[..|moves| - 1]);
      PlainIff(before, m.path);
      TokensOfCanonical(before, m.path);
    }
  }

  lemma {:induction false} CwdIsRootOrResult(moves: seq<Move>)
    ensures exists start, path :: AllPlain(Tokens(start)) && Chdirs(ROOT, moves) == Canonical(start, path)
  {
    if moves == [] {
      assert Tokens(ROOT) == [];
      assert AllPlain(Tokens(ROOT)) && ROOT == Canonical(ROOT, ROOT);
    } else if moves[|moves| - 1].accepted {
      CwdIsPlain(moves[..|moves| - 1]);
      var before, path := Chdirs(ROOT, moves[..|moves| - 1]), moves[|moves| - 1].path;
      assert AllPlain(Tokens(before)) && Chdirs(ROOT, moves) == Canonical(before, path);
    } else {
      CwdIsRootOrResult(moves[..|moves| - 1]);
    }
  }

  /** A run of chdirs along relative paths leads where one chdir along all of them does. */
  lemma {:induction false} ChdirsCompose(cwd: string, moves: seq<Move>)
    requires moves != []
    requires forall i :: 0 <= i < |moves| ==> moves[i].accepted && moves[i].path != [] && moves[i].path[0] != SEPARATOR
    ensures Chdirs(cwd, moves) == Canonical(cwd, Along(moves))
  {
    var n := |moves| - 1;
    if n > 0 {
      ChdirsCompose(cwd, moves[..n]);
      Composes(cwd, Along(moves[..n]), moves[n].path);
    } else {
      assert Chdirs(cwd, moves[..n]) == cwd;
    }
  }

  /** The paths one behind the other. */
  function Along(moves: seq<Move>): string {
    if moves == [] then []
    else if |moves| == 1 then moves[0].path
    else Along(moves[..|moves| - 1]) + [SEPARATOR] + moves[|moves| - 1].path
  }

  // ----- the code

  /** The string that starts at i in a buffer, up to the next NUL. */
  ghost predicate StringAt(buf: seq<char>, i: nat, s: string) {
    i + |s| < |buf| && buf[i..i + |s|] == s && buf[i + |s|] == '\0' && '\0' !in s
  }

  lemma {:induction false} SkipToken(s: string, k: nat)
    requires k <= |s| && forall i :: 0 <= i < k ==> s[i] == SEPARATOR
    ensures Tokens(s) == Tokens(s[k..])
  {
    if k > 0 {
      SkipToken(s[1..], k - 1);
      assert s[1..][k - 1..] == s[k..];
    }
  }

  lemma {:induction false} TokenEndIs(s: string, k: nat)
    requires k <= |s| && SEPARATOR !in s[..k] && (k < |s| ==> s[k] == SEPARATOR)
    ensures TokenEnd(s) == k
  {
    if k > 0 {
      assert s[0] == s[..k][0];
      assert s[1..][..k - 1] == s[..k][1..];
      TokenEndIs(s[1..], k - 1);
    }
  }

  lemma {:induction false} OneToken(s: string, a: nat, b: nat)
    requires a < b <= |s| && (forall i :: 0 <= i < a ==> s[i] == SEPARATOR)
    requires (forall i :: a <= i < b ==> s[i] != SEPARATOR)
    requires b < |s| ==> s[b] == SEPARATOR
    ensures Tokens(s) == [s[a..b]] + Tokens(s[if b < |s| then b + 1 else b..])
    decreases a
  {
    hide Tokens, TokenEnd;
    Unfold(s);
    if a == 0 {
      TokenEndIs(s, b);
      Unfold(s[b..]);
      if b < |s| { assert s[b..][1..] == s[b + 1..]; }
    } else {
      var r := s[1..];
      OneToken(r, a - 1, b - 1);
      assert r[a - 1..b - 1] == s[a..b];
      var e := if b < |s| then b + 1 else b;
      assert r[e - 1..] == s[e..];
    }
  }

  lemma Unfold(s: string)
    ensures s != [] && s[0] == SEPARATOR ==> Tokens(s) == Tokens(s[1..])
    ensures s != [] && s[0] != SEPARATOR ==> Tokens(s) == [s[..TokenEnd(s)]] + Tokens(s[TokenEnd(s)..])
  {
  }

  /** What strtok_r did to the buffer: the first token of the string between s and n is a string
      of its own at token, and the others are in what is left at save. */
  ghost predicate Cut(bytes: seq<char>, bytes': seq<char>, s: nat, n: nat, token: int, save: nat, t: string) {
    && s <= n < |bytes| == |bytes'| && s <= save <= n && EndsAt(bytes', save, n)
    && if token < 0 then Tokens(bytes[s..n]) == []
       else Tokens(bytes[s..n]) == [t] + Tokens(bytes'[save..n]) && StringAt(bytes', token, t)
  }

  /** strtok_r with the separator as its only delimiter, on the string left at position s, which
      ends at n. It ends the token it finds with a NUL and saves the place behind. */
  method StrtokR(buf: array<char>, s: nat, ghost n: nat) returns (token: int, save: nat, ghost t: string)
    requires EndsAt(buf[..], s, n)
    modifies buf
    ensures Cut(old(buf[..]), buf[..], s, n, token, save, t)
  {
    hide Tokens;
    ghost var str := buf[s..n];
    ghost var bytes := buf[..];
    var i: nat := s;
    t := [];
    while buf[i] == SEPARATOR
      invariant s <= i <= n && forall j :: s <= j < i ==> bytes[j] == SEPARATOR
      decreases n - i
    {
      i := i + 1;
    }
    if buf[i] == '\0' {
      NoToken(str);
      return -1, i, [];
    }
    ghost var a := i;
    token := i;
    while buf[i] != '\0' && buf[i] != SEPARATOR
      invariant a <= i <= n && (i == a ==> buf[i] != '\0' && buf[i] != SEPARATOR)
      invariant forall j :: a <= j < i ==> bytes[j] != SEPARATOR
      decreases n - i
    {
      i := i + 1;
    }
    OneToken(str, a - s, i - s);
    t := str[a - s..i - s];
    assert t == bytes[a..i];
    if buf[i] != '\0' {
      assert str[i + 1 - s..] == bytes[i + 1..n];
      buf[i] := '\0';
      save := i + 1;
    } else {
      assert str[i - s..] == bytes[i..n];
      save := i;
    }
    assert buf[a..i] == bytes[a..i];
  }

  /** The string at s ends at n. */
  ghost predicate EndsAt(buf: seq<char>, s: nat, n: nat) {
    s <= n < |buf| && buf[n] == '\0' && forall j :: s <= j < n ==> buf[j] != '\0'
  }

  lemma NoToken(s: string)
    requires forall i :: 0 <= i < |s| ==> s[i] == SEPARATOR
    ensures Tokens(s) == []
  {
    SkipToken(s, |s|);
  }

  /** strlen of the string at i. */
  method Strlen(buf: array<char>, i: nat, ghost s: string) returns (n: nat)
    requires StringAt(buf[..], i, s)
    ensures n == |s|
  {
    n := 0;
    while buf[i + n] != '\0'
      invariant n <= |s| && buf[i..i + |s|] == s
      decreases |s| - n
    {
      assert buf[i + n] == '\0' || n < |s|;
      n := n + 1;
    }
  }

  /** A string copied to the heap, its NUL with it. */
  method Dup(s: string) returns (buf: array<char>)
    requires '\0' !in s
    ensures fresh(buf) && buf[..] == s + ['\0']
  {
    buf := new char[|s| + 1](i requires 0 <= i < |s| + 1 => if i < |s| then s[i] else '\0');
  }

  lemma WalkNone(out: seq<string>)
    ensures Walk(out, []) == out
  {
  }

  lemma WalkOne(out: seq<string>, cs: seq<string>, c: string)
    ensures Walk(out, cs + [c]) == Push(Walk(out, cs), c)
  {
    assert (cs + [c])[..|cs|] == cs;
  }

  /** Between two calls of strtok_r: the components that are left are the token at hand and those
      of the string at save. */
  ghost predicate AtHand(bytes: seq<char>, n: nat, token: int, save: nat, t: string, left: seq<string>) {
    && save <= n < |bytes| && EndsAt(bytes, save, n)
    && if token < 0 then left == [] else left == [t] + Tokens(bytes[save..n]) && StringAt(bytes, token, t)
  }

  lemma CutAtHand(bytes: seq<char>, bytes': seq<char>, s: nat, n: nat, token: int, save: nat, t: string)
    requires Cut(bytes, bytes', s, n, token, save, t)
    ensures s <= n < |bytes| && AtHand(bytes', n, token, save, t, Tokens(bytes[s..n]))
  {
  }

  lemma AtHandParts(bytes: seq<char>, n: nat, token: int, save: nat, t: string, left: seq<string>)
    requires AtHand(bytes, n, token, save, t, left)
    ensures save <= n < |bytes| && EndsAt(bytes, save, n)
    ensures token < 0 ==> left == []
    ensures token >= 0 ==>
              left != [] && left[0] == t && left[1..] == Tokens(bytes[save..n]) && StringAt(bytes, token, t)
  {
    hide Tokens;
  }

  lemma DupEnds(s: string, bytes: seq<char>)
    requires '\0' !in s && bytes == s + ['\0']
    ensures bytes[0..|s|] == s && EndsAt(bytes, 0, |s|)
  {
  }

  /** Both tokenising loops of __canonicalize_path: the components of a copy of s are pushed on
      those in out, resolving "." and ".." or, for the working directory, just as they are. */
  method PushAll(out: seq<string>, s: string, resolve: bool) returns (r: seq<string>)
    requires '\0' !in s
    ensures r == if resolve then Walk(out, Tokens(s)) else out + Tokens(s)
  {
    hide Tokens, Walk, Cut, EndsAt, StringAt, AtHand;
    var path := Dup(s);
    ghost var n := |s|;
    DupEnds(s, path[..]);
    r := out;
    ghost var done: seq<string> := [];
    WalkNone(out);
    ghost var before := path[..];
    var pch: int;
    var save: nat;
    ghost var t: string;
    pch, save, t := StrtokR(path, 0, n);
    ghost var left := Tokens(s);
    CutAtHand(before, path[..], 0, n, pch, save, t);
    while pch >= 0
      invariant fresh(path) && AtHand(path[..], n, pch, save, t, left)
      invariant done + left == Tokens(s) && r == if resolve then Walk(out, done) else out + done
      decreases |left|
    {
      before := path[..];
      AtHandParts(before, n, pch, save, t, left);
      r := PushOne(r, path, pch, t, resolve);
      WalkOne(out, done, t);
      assert done + left == (done + [t]) + left[1..];
      done, left := done + [t], left[1..];
      ghost var at := save;
      pch, save, t := StrtokR(path, save, n);
      CutAtHand(before, path[..], at, n, pch, save, t);
    }
    AtHandParts(path[..], n, pch, save, t, left);
    assert done == Tokens(s);
  }

  /** The body of the tokenising loops. */
  method PushOne(out: seq<string>, path: array<char>, pch: nat, ghost t: string, resolve: bool) returns (r: seq<string>)
    requires StringAt(path[..], pch, t)
    ensures r == if resolve then Push(out, t) else out + [t]
  {
    var len := Strlen(path, pch, t);
    var c := path[pch..pch + len];
    r := out;
    if !resolve {
      r := r + [c];
    } else if c == UP {
      if r != [] { r := r[..|r| - 1]; }
    } else if c != DOT {
      r := r + [c];
    }
  }

  /** The length of a path made of cs, each with its separator. */
  function SizeOf(cs: seq<string>): nat {
    if cs == [] then 0 else SizeOf(cs[..|cs| - 1]) + |cs[|cs| - 1]| + 1
  }

  lemma {:induction false} SizeOfJoin(cs: seq<string>)
    ensures |Join(cs)| == SizeOf(cs) && (SizeOf(cs) == 0 <==> cs == [])
  {
    if cs != [] { SizeOfJoin(cs[..|cs| - 1]); }
  }

  lemma {:induction false} SizeOfPrefix(cs: seq<string>, i: nat)
    requires i <= |cs|
    ensures SizeOf(cs[..i]) <= SizeOf(cs)
    decreases |cs| - i
  {
    if i < |cs| {
      assert cs[..i + 1][..i] == cs[..i];
      SizeOfPrefix(cs, i + 1);
    } else {
      assert cs[..i] == cs;
    }
  }

  /** __canonicalize_path. The buffer is just as long as the path and its NUL. */
  method Canonicalize(cwd: string, input: string) returns (output: array<char>)
    requires '\0' !in cwd && '\0' !in input
    ensures output[..] == Canonical(cwd, input) + ['\0']
  {
    hide Tokens, Walk, Join;
    var out: seq<string> := [];
    if |input| > 0 && input[0] != SEPARATOR {
      out := PushAll(out, cwd, false);
      assert out == Tokens(cwd);
    }
    out := PushAll(out, input, true);
    SizeOfJoin(out);
    var size := 0;
    var i := 0;
    while i < |out|
      invariant i <= |out| && size == SizeOf(out[..i])
    {
      assert out[..i + 1][..i] == out[..i];
      size := size + |out[i]| + 1;
      i := i + 1;
    }
    assert out[..i] == out;
    if size == 0 {
      output := new char[2];
      output[0] := SEPARATOR;
      output[1] := '\0';
      return;
    }
    output := new char[size + 1];
    WriteJoined(out, output);
  }

  /** The loop that joins the components into the output. */
  method WriteJoined(out: seq<string>, output: array<char>)
    requires out != [] && output.Length == SizeOf(out) + 1
    modifies output
    ensures output[..] == Join(out) + ['\0']
  {
    var at: nat := 0;
    var i := 0;
    while i < |out|
      invariant i <= |out| && at == SizeOf(out[..i]) <= SizeOf(out)
      invariant output[..at] == Join(out[..i]) && (i > 0 ==> output[at] == '\0')
    {
      assert out[..i + 1][..i] == out[..i];
      SizeOfPrefix(out, i + 1);
      ghost var before := output[..at];
      output[at] := SEPARATOR;
      at := at + 1;
      forall j | 0 <= j <= |out[i]| {
        output[at + j] := if j < |out[i]| then out[i][j] else '\0';
      }
      assert output[..at + |out[i]|] == before + [SEPARATOR] + out[i];
      at := at + |out[i]|;
      i := i + 1;
    }
    assert out[..i] == out;
  }
}

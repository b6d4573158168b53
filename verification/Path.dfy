/**
 vfs_build_abs_path: a path is made absolute and normal in an output buffer.  The buffer code is
 proved equal to a machine on texts, and that machine to a push and pop machine on components.
 */
module Path {

  datatype Option<+T> = None | Some(value: T)

  const SLASH: char := '/'
  const NUL: char := '\0'

  // ----- Components -----

  function TokenLen(s: string): (k: nat)
    ensures k <= |s| && SLASH !in s[..k] && (k < |s| ==> s[k] == SLASH)
  {
    if s == "" || s[0] == SLASH then 0 else
    var k := TokenLen(s[1..]);
    assert s[..k + 1] == [s[0]] + s[1..][..k];
    k + 1
  }

  /** The non-empty stretches between slashes. */
  function Parse(s: string): seq<string> {
    if s == "" then [] else if s[0] == SLASH then Parse(s[1..]) else [s[..TokenLen(s)]] + Parse(s[TokenLen(s)..])
  }

  lemma {:induction false} TokenLenIs(s: string, k: nat)
    requires k <= |s| && SLASH !in s[..k] && (k < |s| ==> s[k] == SLASH)
    ensures TokenLen(s) == k
  {
    var m := TokenLen(s);
    assert forall i :: 0 <= i < k ==> s[i] == s[..k][i];
    assert forall i :: 0 <= i < m ==> s[i] == s[..m][i];
  }

  /** A slash separates what is before it from what is after it. */
  lemma {:induction false} ParseAtSlash(a: string, b: string)
    ensures Parse(a + [SLASH] + b) == Parse(a) + Parse(b)
    decreases |a|
  {
    var s := a + [SLASH] + b;
    if a == "" {
      assert s[1..] == b;
    } else if a[0] == SLASH {
      ParseAtSlash(a[1..], b);
      assert s[1..] == a[1..] + [SLASH] + b;
    } else {
      var k := TokenLen(a);
      assert s[..k] == a[..k];
      TokenLenIs(s, k);
      ParseAtSlash(a[k..], b);
      assert s[k..] == a[k..] + [SLASH] + b;
    }
  }

  lemma {:induction false} ParseToken(c: string)
    requires c != "" && SLASH !in c
    ensures Parse(c) == [c]
  {
    TokenLenIs(c, |c|);
    assert c[..|c|] == c && c[|c|..] == "";
  }

  // ----- The machine on components -----

  function Move(stack: seq<string>, c: string): seq<string> {
    if c == "." then stack
    else if c == ".." then (if stack == [] then [] else stack[..|stack| - 1])
    else stack + [c]
  }

  function Fold(stack: seq<string>, cs: seq<string>): seq<string>
    decreases |cs|
  {
    if cs == [] then stack else Fold(Move(stack, cs[0]), cs[1..])
  }

  predicate Normal(stack: seq<string>) {
    forall c :: c in stack ==> c != "." && c != ".."
  }

  lemma {:induction false} MoveNormal(stack: seq<string>, c: string)
    requires Normal(stack)
    ensures Normal(Move(stack, c))
  {
    forall d | d in Move(stack, c) ensures d != "." && d != ".." {
      assert d in stack || d == c;
    }
  }

  lemma {:induction false} FoldNormal(stack: seq<string>, cs: seq<string>)
    requires Normal(stack)
    ensures Normal(Fold(stack, cs))
    decreases |cs|
  {
    if cs != [] {
      MoveNormal(stack, cs[0]);
      FoldNormal(Move(stack, cs[0]), cs[1..]);
    }
  }

  // ----- The machine on texts -----

  function Push(t: string, c: string): string
    requires t != ""
  {
    t + (if t[|t| - 1] == SLASH then "" else [SLASH]) + c
  }

  function DropToSlash(t: string): (r: string)
    ensures r <= t && (r != "" ==> r[|r| - 1] == SLASH) && SLASH !in t[|r|..]
  {
    if t == "" || t[|t| - 1] == SLASH then t else
    var r := DropToSlash(t[..|t| - 1]);
    assert t[|r|..] == t[..|t| - 1][|r|..] + [t[|t| - 1]];
    r
  }

  function Pop(t: string): string {
    if |t| <= 1 then t else DropToSlash(t[..|t| - 1])
  }

  function Step(t: string, c: string, size: nat): Option<string>
    requires t != ""
  {
    if c == "." then Some(t)
    else if c == ".." then Some(Pop(t))
    else if |Push(t, c)| + 1 > size then None
    else Some(Push(t, c))
  }

  predicate Rooted(t: string) {
    t != "" && t[0] == SLASH
  }

  lemma {:induction false} PopRooted(t: string)
    requires Rooted(t)
    ensures Rooted(Pop(t)) && Pop(t) <= t
  {
    if |t| > 1 {
      var r := DropToSlash(t[..|t| - 1]);
      assert t[..|t| - 1][0] == SLASH;
    }
  }

  function Run(t: string, cs: seq<string>, size: nat): Option<string>
    requires Rooted(t)
    decreases |cs|
  {
    if cs == [] then Some(t) else
    PopRooted(t);
    var u := Step(t, cs[0], size);
    if u.None? then None else Run(u.value, cs[1..], size)
  }

  // ----- The two machines agree -----

  ghost predicate DoubleSlash(t: string, i: nat)
    requires i + 1 < |t|
  {
    t[i] == SLASH && t[i + 1] == SLASH
  }

  /** Absolute and without an empty component. */
  ghost predicate Clean(t: string) {
    Rooted(t) && forall i: nat :: i + 1 < |t| ==> !DoubleSlash(t, i)
  }

  predicate Component(c: string) {
    c != "" && SLASH !in c
  }

  lemma {:induction false} PushAgrees(t: string, c: string)
    requires Clean(t) && Component(c)
    ensures Clean(Push(t, c)) && Parse(Push(t, c)) == Parse(t) + [c]
  {
    var u := Push(t, c);
    var slashed := t[|t| - 1] == SLASH;
    var a := if slashed then t[..|t| - 1] else t;
    assert u == a + [SLASH] + c && |a| + 1 + |c| == |u|;
    ParseAtSlash(a, c);
    ParseToken(c);
    if slashed {
      assert t == a + [SLASH] + "";
      ParseAtSlash(a, "");
    }
    forall i: nat | i + 1 < |u| ensures !DoubleSlash(u, i) {
      if i + 1 < |t| {
        assert !DoubleSlash(t, i);
      } else if i + 1 > |a| {
        assert u[i + 1] == c[i - |a|];
      }
    }
  }

  lemma {:induction false} PopAgrees(t: string)
    requires Clean(t)
    ensures Clean(Pop(t))
    ensures Parse(Pop(t)) == if Parse(t) == [] then [] else Parse(t)[..|Parse(t)| - 1]
  {
    if |t| == 1 {
      assert t == [SLASH] && t[1..] == "";
    } else {
      PopRooted(t);
      var r := Pop(t);
      forall i: nat | i + 1 < |r| ensures !DoubleSlash(r, i) {
        assert !DoubleSlash(t, i);
      }
      var u, c := r[..|r| - 1], t[|r|..];
      assert r == u + [SLASH] + "";
      ParseAtSlash(u, "");
      assert t == u + [SLASH] + c;
      ParseAtSlash(u, c);
      LastComponent(t, r);
    }
  }

  /** What a pop takes away is one component, perhaps with a slash after it. */
  lemma {:induction false} LastComponent(t: string, r: string)
    requires Clean(t) && |t| > 1 && r == Pop(t)
    ensures |r| < |t| && r <= t && r != "" && r[|r| - 1] == SLASH && |Parse(t[|r|..])| == 1
    ensures var c := Parse(t[|r|..])[0]; Component(c) && (t[|r|..] == c || t[|r|..] == c + [SLASH])
  {
    var s, last := t[..|t| - 1], t[|t| - 1];
    PopRooted(t);
    assert |r| < |t| && r <= s;
    var c := t[|r|..];
    if last == SLASH {
      var d := s[|r|..];
      assert c == d + [SLASH] + "" && c == d + [SLASH];
      assert !DoubleSlash(t, |t| - 2);
      ParseToken(d);
      ParseAtSlash(d, "");
    } else {
      assert c == s[|r|..] + [last];
      ParseToken(c);
    }
  }

  lemma {:induction false} ParseComponents(s: string)
    ensures forall c :: c in Parse(s) ==> Component(c)
    decreases |s|
  {
    if s != "" {
      if s[0] == SLASH {
        ParseComponents(s[1..]);
      } else {
        ParseComponents(s[TokenLen(s)..]);
      }
    }
  }

  /** A run on texts is a run on stacks, and keeps the text absolute and free of double slashes. */
  lemma {:induction false} RunAgrees(t: string, cs: seq<string>, size: nat)
    requires Clean(t) && forall c :: c in cs ==> Component(c)
    ensures Run(t, cs, size).Some? ==>
      Clean(Run(t, cs, size).value) && Parse(Run(t, cs, size).value) == Fold(Parse(t), cs)
    decreases |cs|
  {
    if cs != [] {
      PopAgrees(t);
      if cs[0] != "." && cs[0] != ".." {
        PushAgrees(t, cs[0]);
      }
      var u := Step(t, cs[0], size);
      if u.Some? {
        RunAgrees(u.value, cs[1..], size);
      }
    }
  }

  /** The text a buffer without end would hold. */
  function Free(t: string, cs: seq<string>): string
    requires Rooted(t)
    decreases |cs|
  {
    if cs == [] then t else
    PopRooted(t);
    Free(if cs[0] == "." then t else if cs[0] == ".." then Pop(t) else Push(t, cs[0]), cs[1..])
  }

  ghost predicate PrefixFits(t: string, cs: seq<string>, size: nat, k: nat)
    requires Rooted(t) && k <= |cs|
  {
    |Free(t, cs[..k])| + 1 <= size
  }

  ghost predicate AllFit(t: string, cs: seq<string>, size: nat)
    requires Rooted(t)
  {
    forall k: nat :: k <= |cs| ==> PrefixFits(t, cs, size, k)
  }

  /** A run succeeds exactly when every text on the way, not only the last, fits with its NUL. */
  lemma {:induction false} RunFitsIff(t: string, cs: seq<string>, size: nat)
    requires Rooted(t) && |t| + 1 <= size
    ensures Run(t, cs, size).Some? <==> AllFit(t, cs, size)
    ensures Run(t, cs, size).Some? ==> Run(t, cs, size).value == Free(t, cs)
    decreases |cs|
  {
    if cs == [] {
      assert forall k: nat :: k <= |cs| ==> cs[..k] == [];
    } else {
      PopRooted(t);
      var u := if cs[0] == "." then t else if cs[0] == ".." then Pop(t) else Push(t, cs[0]);
      assert cs[..1][1..] == [] && Free(t, cs[..1]) == Free(u, cs[..1][1..]) == u;
      assert cs[..0] == [];
      if |u| + 1 <= size {
        RunFitsIff(u, cs[1..], size);
        forall k: nat | k < |cs| ensures PrefixFits(u, cs[1..], size, k) == PrefixFits(t, cs, size, k + 1) {
          assert cs[..k + 1][1..] == cs[1..][..k];
        }
        if AllFit(u, cs[1..], size) {
          forall k: nat | k <= |cs| ensures PrefixFits(t, cs, size, k) {
            assert k > 0 ==> PrefixFits(u, cs[1..], size, k - 1);
          }
        }
      } else {
        assert !PrefixFits(t, cs, size, 1);
      }
    }
  }

  // ----- The buffer -----

  /** Where a path starts from. */
  function Base(cwd: Option<string>, input: string): (t: string)
    ensures Rooted(t)
  {
    if input != "" && input[0] == SLASH then [SLASH]
    else if cwd.Some? && Rooted(cwd.value) then cwd.value
    else [SLASH]
  }

  /** The current directory is copied only if one more byte than it needs is left. */
  predicate BaseFits(cwd: Option<string>, input: string, size: nat) {
    size >= 2 && ((input != "" && input[0] == SLASH) || |Base(cwd, input)| + 2 <= size)
  }

  function Build(cwd: Option<string>, input: string, size: nat): Option<string> {
    if BaseFits(cwd, input, size) then Run(Base(cwd, input), Parse(input), size) else None
  }

  method SkipSlashes(input: string, from: nat) returns (src: nat)
    requires from <= |input|
    ensures from <= src <= |input| && (src < |input| ==> input[src] != SLASH)
    ensures Parse(input[src..]) == Parse(input[from..])
  {
    src := from;
    while src < |input| && input[src] == SLASH
      invariant from <= src <= |input| && Parse(input[src..]) == Parse(input[from..])
    {
      assert input[src..][1..] == input[src + 1..];
      src := src + 1;
    }
  }

  method TokenEnd(input: string, from: nat) returns (src: nat)
    requires from < |input| && input[from] != SLASH
    ensures from < src <= |input| && Component(input[from..src])
    ensures Parse(input[from..]) == [input[from..src]] + Parse(input[src..])
  {
    src := from;
    while src < |input| && input[src] != SLASH
      invariant from <= src <= |input| && SLASH !in input[from..src]
    {
      assert input[from..src + 1] == input[from..src] + [input[src]];
      src := src + 1;
    }
    var rest := input[from..];
    assert rest[..src - from] == input[from..src] && rest[src - from..] == input[src..];
    TokenLenIs(rest, src - from);
  }

  /** The loop that takes the last component off the text in the buffer. */
  method PopComponent(out: array<char>, n: nat) returns (m: nat)
    requires n <= out.Length && Rooted(out[..n])
    ensures m <= n && out[..m] == Pop(out[..n])
  {
    m := n;
    if n > 1 {
      ghost var t := out[..n];
      m := n - 1;
      assert out[..m] == t[..n - 1];
      while m > 0 && out[m - 1] != SLASH
        invariant m < n && DropToSlash(out[..m]) == Pop(t)
      {
        assert out[..m][..m - 1] == out[..m - 1];
        m := m - 1;
      }
      PopRooted(t);
    }
  }

  /** One new component behind the text, after a slash unless there is one. */
  method PushComponent(out: array<char>, size: nat, n: nat, t: string) returns (m: nat, ok: bool)
    requires n <= size <= out.Length && n > 0 && t != ""
    modifies out
    ensures forall i :: size <= i < out.Length ==> out[i] == old(out[i])
    ensures ok <==> |Push(old(out[..n]), t)| + 1 <= size
    ensures ok ==> m < size && out[..m] == Push(old(out[..n]), t)
  {
    m := n;
    ghost var text := out[..n];
    if out[n - 1] != SLASH {
      if n + 2 >= size {
        return m, false;
      }
      out[n] := SLASH;
      m := n + 1;
    }
    if m + |t| + 1 > size {
      return m, false;
    }
    forall i | 0 <= i < |t| {
      out[m + i] := t[i];
    }
    assert out[..m + |t|] == text + (if m == n then "" else [SLASH]) + t;
    return m + |t|, true;
  }

  method CopyCwd(c: string, out: array<char>, size: nat) returns (n: nat, ok: bool)
    requires size <= out.Length
    modifies out
    ensures forall i :: size <= i < out.Length ==> out[i] == old(out[i])
    ensures ok <==> c == "" || |c| + 2 <= size
    ensures ok ==> n == |c| <= size && out[..n] == c
  {
    n := 0;
    while n < |c|
      invariant n <= |c| && n <= size && out[..n] == c[..n]
      invariant n > 0 ==> n + 1 < size
      invariant forall i :: size <= i < out.Length ==> out[i] == old(out[i])
    {
      if n + 2 >= size {
        return n, false;
      }
      out[n] := c[n];
      n := n + 1;
    }
    ok := true;
  }

  /** vfs_build_abs_path: nothing is written outside the buffer, and a success leaves the text and its NUL in it. */
  method BuildAbsPath(cwd: Option<string>, input: Option<string>, out: array<char>, size: nat)
    returns (ok: bool, ghost n: nat)
    requires size <= out.Length
    modifies out
    ensures forall i :: size <= i < out.Length ==> out[i] == old(out[i])
    ensures ok <==> input.Some? && Room(cwd, input.value, size)
    ensures ok ==> n < size && out[n] == NUL
    ensures ok ==>
      out[..n] == Free(if FromCwd(cwd, input.value) then cwd.value else [SLASH], Parse(input.value))
    ensures ok && (FromCwd(cwd, input.value) ==> Clean(cwd.value)) ==> Resolves(cwd, input.value, out[..n])
  {
    n := 0;
    if input.None? {
      return false, n;
    }
    var s := input.value;
    BuildFitsIff(cwd, s, size);
    if size < 2 {
      return false, n;
    }
    var src: nat, len: nat := 0, 0;
    if s != "" && s[0] == SLASH {
      out[0] := SLASH;
      len := 1;
      src := SkipSlashes(s, 0);
    } else {
      var fits;
      len, fits := CopyCwd(if cwd.Some? && Rooted(cwd.value) then cwd.value else [SLASH], out, size);
      if !fits {
        return false, n;
      }
    }
    assert s[0..] == s && out[..len] == Base(cwd, s);
    ok, len := Components(s, src, out, size, len);
    if ok {
      out[len] := NUL;
      n := len;
      if FromCwd(cwd, s) ==> Clean(cwd.value) {
        BuildNormal(cwd, s, size);
      }
    }
  }

  /** The loop over the components of the input. */
  method Components(s: string, from: nat, out: array<char>, size: nat, start: nat) returns (ok: bool, n: nat)
    requires from <= |s| && (from < |s| ==> s[from] != SLASH) && start < size <= out.Length && Rooted(out[..start])
    modifies out
    ensures forall i :: size <= i < out.Length ==> out[i] == old(out[i])
    ensures ok <==> Run(old(out[..start]), Parse(s[from..]), size).Some?
    ensures ok ==> n < size && out[..n] == Run(old(out[..start]), Parse(s[from..]), size).value
  {
    var src := from;
    n := start;
    ghost var goal := Run(out[..n], Parse(s[src..]), size);
    while src < |s|
      invariant src <= |s| && (src < |s| ==> s[src] != SLASH) && n < size && Rooted(out[..n])
      invariant Run(out[..n], Parse(s[src..]), size) == goal
      invariant forall i :: size <= i < out.Length ==> out[i] == old(out[i])
    {
      var end := TokenEnd(s, src);
      var t := s[src..end];
      PopRooted(out[..n]);
      src := SkipSlashes(s, end);
      if t == "." {
      } else if t == ".." {
        n := PopComponent(out, n);
      } else {
        n, ok := PushComponent(out, size, n, t);
        if !ok {
          return;
        }
      }
    }
    ok := true;
  }

  // ----- What a caller gets -----

  /** The shortest text of a stack of components. */
  function Join(stack: seq<string>): string {
    if stack == [] then "" else Join(stack[..|stack| - 1]) + [SLASH] + stack[|stack| - 1]
  }

  lemma {:induction false} JoinEnd(stack: seq<string>)
    requires forall c :: c in stack ==> Component(c)
    ensures Join(stack) != "" ==> Join(stack)[|Join(stack)| - 1] != SLASH
  {
    if stack != [] {
      var c := stack[|stack| - 1];
      assert Component(c) && c[|c| - 1] in c;
    }
  }

  /** A clean text is the text of its components, up to one slash at the end. */
  lemma {:induction false} CleanText(t: string)
    requires Clean(t)
    ensures t == Join(Parse(t)) || t == Join(Parse(t)) + [SLASH]
    decreases |t|
  {
    if |t| == 1 {
      assert t == [SLASH] && t[1..] == "";
    } else {
      var r := Pop(t);
      PopAgrees(t);
      LastComponent(t, r);
      hide Parse, Pop;
      CleanText(r);
      ParseComponents(r);
      JoinEnd(Parse(r));
      assert r == Join(Parse(r)) + [SLASH];
      LastPushed(t, r);
      var p := Parse(t);
      assert Join(p) == Join(Parse(r)) + [SLASH] + p[|p| - 1];
    }
  }

  lemma {:induction false} ParseNothing()
    ensures Parse("") == []
  {
  }

  lemma {:induction false} LastPushed(t: string, r: string)
    requires Clean(t) && |t| > 1 && r == Pop(t)
    ensures r <= t && Parse(t) != [] && var p := Parse(t);
      p[..|p| - 1] == Parse(r) && (t == r + p[|p| - 1] || t == r + p[|p| - 1] + [SLASH])
  {
    hide Parse, Pop, Clean;
    LastComponent(t, r);
    ParseNothing();
    var u, c := r[..|r| - 1], t[|r|..];
    assert t == u + [SLASH] + c && r == u + [SLASH] + "" && t == r + c;
    ParseAtSlash(u, c);
    ParseAtSlash(u, "");
    var p := Parse(t);
    assert p == Parse(r) + [Parse(c)[0]];
  }

  /** A relative input, and an absolute directory to start it from. */
  predicate FromCwd(cwd: Option<string>, input: string) {
    !(|input| > 0 && input[0] == '/') && cwd.Some? && |cwd.value| > 0 && cwd.value[0] == '/'
  }

  /** What the input comes to: pushed and popped from the directory's components, or from none. */
  ghost predicate Resolves(cwd: Option<string>, input: string, t: string) {
    && Clean(t) && (t == Join(Parse(t)) || t == Join(Parse(t)) + [SLASH])
    && Parse(t) == Fold(if FromCwd(cwd, input) then Parse(cwd.value) else [], Parse(input))
    && ((FromCwd(cwd, input) ==> Normal(Parse(cwd.value))) ==> Normal(Parse(t)))
  }

  /**
   On success the components of the output are those of the current directory, for a relative input,
   pushed and popped by those of the input; none is "." or ".." unless the directory has one, and the
   text is absolute without an empty component.
   */
  lemma {:induction false} BuildNormal(cwd: Option<string>, input: string, size: nat)
    requires FromCwd(cwd, input) ==> Clean(cwd.value)
    requires Build(cwd, input, size).Some?
    ensures Resolves(cwd, input, Build(cwd, input, size).value)
  {
    var t := Base(cwd, input);
    assert !FromCwd(cwd, input) ==> t == [SLASH] && Parse(t) == Parse("");
    ParseComponents(input);
    RunAgrees(t, Parse(input), size);
    if !FromCwd(cwd, input) || Normal(Parse(cwd.value)) {
      FoldNormal(Parse(t), Parse(input));
    }
    CleanText(Build(cwd, input, size).value);
  }

  /** No call from an absolute directory goes wrong if and only if the directory has no double slash. */
  lemma {:induction false} CwdCleanIff(dir: string)
    requires Rooted(dir)
    ensures Clean(dir) <==> forall input, size: nat ::
      FromCwd(Some(dir), input) && Build(Some(dir), input, size).Some? ==>
        Resolves(Some(dir), input, Build(Some(dir), input, size).value)
  {
    if Clean(dir) {
      forall input, size: nat | FromCwd(Some(dir), input) && Build(Some(dir), input, size).Some?
        ensures Resolves(Some(dir), input, Build(Some(dir), input, size).value)
      {
        BuildNormal(Some(dir), input, size);
      }
    } else {
      ParseNothing();
      assert FromCwd(Some(dir), "") && Build(Some(dir), "", |dir| + 2) == Some(dir);
    }
  }

  /** The room a call needs: for the directory and one byte more, and for every text on the way. */
  ghost predicate Room(cwd: Option<string>, input: string, size: nat) {
    if FromCwd(cwd, input) then
      |cwd.value| + 2 <= size && AllFit(cwd.value, Parse(input), size)
    else
      AllFit([SLASH], Parse(input), size) && (input == "" || input[0] != '/' ==> 3 <= size)
  }

  /** The exact condition of a success. */
  lemma {:induction false} BuildFitsIff(cwd: Option<string>, input: string, size: nat)
    ensures Build(cwd, input, size).Some? <==> Room(cwd, input, size)
    ensures Build(cwd, input, size).Some? ==>
      Build(cwd, input, size).value == Free(if FromCwd(cwd, input) then cwd.value else [SLASH], Parse(input))
  {
    var t, cs := Base(cwd, input), Parse(input);
    if BaseFits(cwd, input, size) {
      RunFitsIff(t, cs, size);
      assert Build(cwd, input, size) == Run(t, cs, size);
    } else if AllFit(t, cs, size) {
      assert PrefixFits(t, cs, size, 0) && cs[..0] == [];
    }
  }

  lemma {:induction false} ParseUpAndDown()
    ensures Parse("/ab/..") == ["ab", ".."]
  {
    ParseAtSlash("", "ab/..");
    ParseAtSlash("ab", "..");
    ParseToken("ab");
    ParseToken("..");
    assert "/ab/.." == "" + [SLASH] + "ab/.." && "ab/.." == "ab" + [SLASH] + "..";
  }

  /** The result "/" would fit in each of these buffers, yet the call fails. */
  lemma {:induction false} FitsButFails()
    ensures Build(None, "", 2).None?
    ensures Free([SLASH], Parse("/ab/..")) == [SLASH] && Build(None, "/ab/..", 3).None?
  {
    hide Parse;
    ParseUpAndDown();
    var cs := Parse("/ab/..");
    assert cs[1..] == [".."] && cs[1..][1..] == [];
    assert Push([SLASH], "ab") == "/ab";
    assert Pop("/ab") == [SLASH] by {
      assert "/ab"[..2] == "/a" && "/a"[..1] == [SLASH];
    }
  }
}

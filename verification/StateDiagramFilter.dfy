/** The text filter in front of the state diagram generator: lines become characters, block
    comments go, the rest is cut into chunks at semicolons and braces, and the depth of braces is
    counted chunk by chunk. */
module StateDiagramFilter {
  import opened Sequences

  // ---------- Block comments ----------

  /** What follows the first closing mark. */
  function SkipComment(s: string): (r: string)
    ensures |r| <= |s|
  {
    if |s| < 2 then ""
    else if s[0] == '*' && s[1] == '/' then s[2..]
    else SkipComment(s[1..])
  }

  /** The text without its comments: each leftmost opening mark goes, with everything through
      the next closing mark. */
  function Strip(s: string): string
    decreases |s|
  {
    if |s| < 2 then s
    else if s[0] == '/' && s[1] == '*' then Strip(SkipComment(s[2..]))
    else [s[0]] + Strip(s[1..])
  }

  /** k is the first place where the characters a and b stand side by side. */
  predicate FirstAt(s: string, a: char, b: char, k: nat) {
    && k + 1 < |s| && s[k] == a && s[k + 1] == b
    && forall j | 0 <= j < k :: !(s[j] == a && s[j + 1] == b)
  }

  predicate Nowhere(s: string, a: char, b: char) {
    forall j | 0 <= j < |s| - 1 :: !(s[j] == a && s[j + 1] == b)
  }

  lemma {:induction false} SkipsThroughClosing(s: string, k: nat)
    ensures FirstAt(s, '*', '/', k) ==> SkipComment(s) == s[k + 2..]
    ensures Nowhere(s, '*', '/') ==> SkipComment(s) == ""
  {
    if |s| >= 2 {
      if k > 0 {
        assert FirstAt(s, '*', '/', k) ==> FirstAt(s[1..], '*', '/', k - 1);
        SkipsThroughClosing(s[1..], k - 1);
      } else {
        SkipsThroughClosing(s[1..], k);
      }
      assert Nowhere(s, '*', '/') ==> Nowhere(s[1..], '*', '/');
    }
  }

  lemma {:induction false} StripsFromOpening(s: string, k: nat)
    requires FirstAt(s, '/', '*', k)
    ensures Strip(s) == s[..k] + Strip(SkipComment(s[k + 2..]))
  {
    var rest := Strip(SkipComment(s[k + 2..]));
    if k > 0 {
      var t := s[1..];
      assert t[k + 1..] == s[k + 2..] && FirstAt(t, '/', '*', k - 1);
      StripsFromOpening(t, k - 1);
      calc {
        Strip(s);
        [s[0]] + Strip(t);
        [s[0]] + (t[..k - 1] + rest);
        { AppendAssociative([s[0]], t[..k - 1], rest); }
        ([s[0]] + t[..k - 1]) + rest;
        { assert s[..k] == [s[0]] + t[..k - 1]; }
        s[..k] + rest;
      }
    }
  }

  lemma {:induction false} KeepsPlainText(s: string)
    requires Nowhere(s, '/', '*')
    ensures Strip(s) == s
  {
    if |s| >= 2 {
      KeepsPlainText(s[1..]);
    }
  }

  /** The first opening mark is cut out with everything through the closing mark that follows it,
      or with all the rest when none does. */
  lemma StripsLeftmost(s: string, k: nat, m: nat)
    requires FirstAt(s, '/', '*', k)
    ensures FirstAt(s[k + 2..], '*', '/', m) ==> Strip(s) == s[..k] + Strip(s[k + 2..][m + 2..])
    ensures Nowhere(s[k + 2..], '*', '/') ==> Strip(s) == s[..k]
  {
    StripsFromOpening(s, k);
    SkipsThroughClosing(s[k + 2..], m);
  }

  /** The text ends, outside any comment, in a slash. */
  predicate TrailingSlash(s: string)
    decreases |s|
  {
    if |s| < 2 then s == "/"
    else if s[0] == '/' && s[1] == '*' then TrailingSlash(SkipComment(s[2..]))
    else TrailingSlash(s[1..])
  }

  /** The characters a filter in plain text still has to yield for s. */
  function Yields(s: string): string
    decreases |s|
  {
    if |s| < 2 then if s == "/" then "" else s
    else if s[0] == '/' && s[1] == '*' then Yields(SkipComment(s[2..]))
    else [s[0]] + Yields(s[1..])
  }

  lemma {:induction false} YieldsIsStrip(s: string)
    ensures Strip(s) == Yields(s) + if TrailingSlash(s) then "/" else ""
    decreases |s|
  {
    if |s| >= 2 {
      if s[0] == '/' && s[1] == '*' {
        YieldsIsStrip(SkipComment(s[2..]));
      } else {
        YieldsIsStrip(s[1..]);
      }
    }
  }

  /** Where the filter stands: in plain text, after a slash, in a comment, or after a star in one. */
  datatype Mode = Code | Slash | Comment | Star

  function NextMode(m: Mode, c: char): Mode {
    match m
    case Code => if c == '/' then Slash else Code
    case Slash => if c == '*' then Comment else if c == '/' then Slash else Code
    case Comment => if c == '*' then Star else Comment
    case Star => if c == '/' then Code else if c == '*' then Star else Comment
  }

  function Emitted(m: Mode, c: char): string {
    match m
    case Code => if c == '/' then "" else [c]
    case Slash => if c == '*' then "" else if c == '/' then "/" else ['/', c]
    case _ => ""
  }

  /** What is left to yield in each mode. */
  function Left(m: Mode, rest: string): string {
    match m
    case Code => Yields(rest)
    case Slash => Yields(['/'] + rest)
    case Comment => Yields(SkipComment(rest))
    case Star => Yields(SkipComment(['*'] + rest))
  }

  lemma YieldPlain(c: char, rest: string)
    requires c != '/'
    ensures Yields([c] + rest) == [c] + Yields(rest)
  {
    assert ([c] + rest)[1..] == rest && ([c] + rest)[0] == c;
    if rest == "" {
      assert [c] + rest == [c] != "/";
    }
  }

  lemma YieldSlash(c: char, rest: string)
    ensures Yields(['/'] + ([c] + rest)) ==
            if c == '*' then Yields(SkipComment(rest)) else ['/'] + Yields([c] + rest)
  {
    var s := ['/'] + ([c] + rest);
    assert s[1..] == [c] + rest && s[2..] == rest;
  }

  lemma SkipPlain(c: char, rest: string)
    requires c != '*'
    ensures SkipComment([c] + rest) == SkipComment(rest)
  {
    assert ([c] + rest)[1..] == rest;
  }

  lemma SkipStar(c: char, rest: string)
    ensures SkipComment(['*'] + ([c] + rest)) == if c == '/' then rest else SkipComment([c] + rest)
  {
    var s := ['*'] + ([c] + rest);
    assert s[1..] == [c] + rest && s[2..] == rest;
  }

  lemma LeftStep(m: Mode, c: char, rest: string)
    ensures Left(m, [c] + rest) == Emitted(m, c) + Left(NextMode(m, c), rest)
  {
    match m
    case Code =>
      if c != '/' {
        YieldPlain(c, rest);
      }
    case Slash =>
      YieldSlash(c, rest);
      if c != '/' {
        YieldPlain(c, rest);
        assert ['/'] + ([c] + Yields(rest)) == ['/', c] + Yields(rest);
      }
    case Comment =>
      if c != '*' {
        SkipPlain(c, rest);
      }
    case Star =>
      SkipStar(c, rest);
      if c != '*' && c != '/' {
        SkipPlain(c, rest);
      }
  }

  /** The streaming filter, one character at a time. It removes exactly the comments, unless the
      text ends in a slash that might still have opened one: that slash is never yielded. */
  method RemoveMultilineComments(chars: string) returns (out: string)
    ensures out == Strip(chars) <==> !TrailingSlash(chars)
    ensures TrailingSlash(chars) ==> Strip(chars) == out + "/"
  {
    var saw, inComment := "", false;
    ghost var mode, left := Code, Yields(chars);
    out := "";
    var i := 0;
    assert chars[0..] == chars;
    while i < |chars|
      invariant 0 <= i <= |chars|
      invariant inComment == (mode.Comment? || mode.Star?)
      invariant saw == if mode.Slash? then "/" else if mode.Star? then "*" else ""
      invariant left == Left(mode, chars[i..]) && out + left == Yields(chars)
    {
      var c := chars[i];
      assert chars[i..] == [c] + chars[i + 1..];
      LeftStep(mode, c, chars[i + 1..]);
      ghost var yielded := out + Emitted(mode, c);
      left := Left(NextMode(mode, c), chars[i + 1..]);
      AppendAssociative(out, Emitted(mode, c), left);
      mode := NextMode(mode, c);
      i := i + 1;
      if inComment {
        if saw == "*" {
          if c == '/' {
            inComment := false;
          }
          saw := "";
        }
        if c == '*' {
          saw := "*";
        }
        assert out == yielded;
        continue;
      }
      if saw == "/" {
        if c == '*' {
          inComment := true;
          saw := "";
          assert out == yielded;
          continue;
        } else {
          out := out + saw;
          saw := "";
        }
      }
      if c == '/' {
        saw := "/";
        assert out == yielded;
        continue;
      }
      out := out + [c];
      assert out == yielded;
    }
    YieldsIsStrip(chars);
  }

  // ---------- Chunks and brace depth ----------

  /** `to_char`: line breaks become blanks. */
  function ToChars(lines: seq<string>): (r: string)
    ensures '\n' !in r
  {
    if lines == [] then "" else ToChars(lines[..|lines| - 1]) + Blanked(lines[|lines| - 1])
  }

  function Blanked(line: string): (r: string)
    ensures '\n' !in r
  {
    if line == "" then "" else [if line[0] == '\n' then ' ' else line[0]] + Blanked(line[1..])
  }

  lemma {:induction false} BlankedExactly(line: string)
    ensures |Blanked(line)| == |line|
    ensures forall i | 0 <= i < |line| :: Blanked(line)[i] == if line[i] == '\n' then ' ' else line[i]
  {
    if line != "" {
      BlankedExactly(line[1..]);
    }
  }

  /** The characters are those of the lines, in order, with a blank for each line break. */
  lemma {:induction false} ToCharsExactly(lines: seq<string>)
    ensures ToChars(lines) == Blanked(Concat(lines))
  {
    if lines != [] {
      var front, last := lines[..|lines| - 1], lines[|lines| - 1];
      ToCharsExactly(front);
      BlankedExactly(Concat(front));
      BlankedExactly(last);
      BlankedExactly(Concat(front) + last);
      assert Blanked(Concat(front)) + Blanked(last) == Blanked(Concat(front) + last);
    }
  }

  predicate IsDelimiter(c: char) {
    c == ';' || c == '{' || c == '}'
  }

  predicate NoDelimiter(s: string) {
    forall i | 0 <= i < |s| :: !IsDelimiter(s[i])
  }

  /** Exactly one delimiter, at the end. */
  predicate OneDelimiter(s: string) {
    s != "" && IsDelimiter(s[|s| - 1]) && NoDelimiter(s[..|s| - 1])
  }

  function Concat(ss: seq<string>): string {
    if ss == [] then "" else Concat(ss[..|ss| - 1]) + ss[|ss| - 1]
  }

  /** `lstrip("\n")`. */
  function LeftStripped(s: string): string {
    if s != "" && s[0] == '\n' then LeftStripped(s[1..]) else s
  }

  /** Exactly the line breaks at the front are gone. */
  lemma {:induction false} LeftStrippedExactly(s: string) returns (k: nat)
    ensures k <= |s| && LeftStripped(s) == s[k..] && (k < |s| ==> s[k] != '\n')
    ensures forall i | 0 <= i < k :: s[i] == '\n'
  {
    if s != "" && s[0] == '\n' {
      var j := LeftStrippedExactly(s[1..]);
      k := j + 1;
      assert s[1..][j..] == s[k..];
    } else {
      k := 0;
    }
  }

  /** The text without its line breaks. */
  function Unbroken(s: string): string {
    if s == "" then ""
    else Unbroken(s[..|s| - 1]) + if s[|s| - 1] == '\n' then "" else [s[|s| - 1]]
  }

  lemma {:induction false} UnbrokenConcat(a: string, b: string)
    ensures Unbroken(a + b) == Unbroken(a) + Unbroken(b)
  {
    if b == "" {
      assert a + b == a;
    } else {
      assert (a + b)[..|a + b| - 1] == a + b[..|b| - 1];
      UnbrokenConcat(a, b[..|b| - 1]);
    }
  }

  lemma {:induction false} UnbrokenStripped(s: string)
    ensures Unbroken(LeftStripped(s)) == Unbroken(s)
  {
    if s != "" && s[0] == '\n' {
      UnbrokenStripped(s[1..]);
      assert s == [s[0]] + s[1..] && [s[0]][..0] == "";
      UnbrokenConcat([s[0]], s[1..]);
    }
  }

  lemma {:induction false} LeftStrippedKeeps(s: string)
    ensures OneDelimiter(s) ==> OneDelimiter(LeftStripped(s)) && LeftStripped(s)[0] != '\n'
    ensures '\n' !in s ==> LeftStripped(s) == s
  {
    if s != "" && s[0] == '\n' {
      LeftStrippedKeeps(s[1..]);
      if OneDelimiter(s) {
        assert s[1..][..|s| - 2] == s[..|s| - 1][1..];
      }
    }
  }

  lemma OneMore(done: string, rest: string, s: string, c: char)
    requires Unbroken(done + rest) == Unbroken(s)
    ensures Unbroken(done + (rest + [c])) == Unbroken(s + [c])
  {
    AppendAssociative(done, rest, [c]);
    UnbrokenConcat(done + rest, [c]);
    UnbrokenConcat(s, [c]);
  }

  lemma StrippedOff(done: string, rest: string, s: string, c: char)
    requires Unbroken(done + rest) == Unbroken(s)
    ensures Unbroken(done + LeftStripped(rest + [c])) == Unbroken(s + [c])
  {
    OneMore(done, rest, s, c);
    UnbrokenConcat(done, rest + [c]);
    UnbrokenConcat(done, LeftStripped(rest + [c]));
    UnbrokenStripped(rest + [c]);
  }

  lemma ConcatSnoc(ss: seq<string>, c: string)
    ensures Concat(ss + [c]) == Concat(ss) + c
  {
    assert (ss + [c])[..|ss|] == ss;
  }

  /** `acc_lines`, and the text after the last delimiter, which it never yields. */
  method AccLines(chars: string) returns (chunks: seq<string>, rest: string)
    ensures forall c | c in chunks :: OneDelimiter(c) && c[0] != '\n'
    ensures NoDelimiter(rest)
    ensures Unbroken(Concat(chunks) + rest) == Unbroken(chars)
    ensures '\n' !in chars ==> Concat(chunks) + rest == chars
  {
    chunks, rest := [], "";
    ghost var done, seen := "", "";
    var i := 0;
    while i < |chars|
      invariant 0 <= i <= |chars|
      invariant forall c | c in chunks :: OneDelimiter(c) && c[0] != '\n'
      invariant NoDelimiter(rest)
      invariant done == Concat(chunks) && seen == chars[..i] && Unbroken(done + rest) == Unbroken(seen)
      invariant '\n' !in chars ==> '\n' !in rest && done + rest == seen
    {
      var c := chars[i];
      var current := rest + [c];
      AppendAssociative(done, rest, [c]);
      if IsDelimiter(c) {
        assert OneDelimiter(current) by {
          assert current[..|current| - 1] == rest;
        }
        LeftStrippedKeeps(current);
        StrippedOff(done, rest, seen, c);
        ConcatSnoc(chunks, LeftStripped(current));
        chunks := chunks + [LeftStripped(current)];
        done := done + LeftStripped(current);
        assert done + "" == done;
        rest := "";
      } else {
        OneMore(done, rest, seen, c);
        rest := current;
      }
      assert chars[..i + 1] == seen + [c];
      seen := seen + [c];
      i := i + 1;
    }
    assert chars[..i] == chars;
  }

  /** Opening braces minus closing braces. */
  function Balance(s: string): int {
    if s == "" then 0
    else Balance(s[..|s| - 1]) + match s[|s| - 1] case '{' => 1 case '}' => -1 case _ => 0
  }

  lemma {:induction false} BalanceCounts(s: string)
    ensures Balance(s) == multiset(s)['{'] as int - multiset(s)['}'] as int
  {
    if s != "" {
      var front, c := s[..|s| - 1], s[|s| - 1];
      BalanceCounts(front);
      assert s == front + [c] && multiset(s) == multiset(front) + multiset{c};
    }
  }

  lemma {:induction false} BalanceConcat(a: string, b: string)
    ensures Balance(a + b) == Balance(a) + Balance(b)
  {
    if b == "" {
      assert a + b == a;
    } else {
      assert (a + b)[..|a + b| - 1] == a + b[..|b| - 1];
      BalanceConcat(a, b[..|b| - 1]);
    }
  }

  lemma {:induction false} BalanceOfPlain(s: string)
    requires NoDelimiter(s)
    ensures Balance(s) == 0
  {
    if s != "" {
      BalanceOfPlain(s[..|s| - 1]);
      assert !IsDelimiter(s[|s| - 1]);
    }
  }

  /** A semicolon or a brace, and nothing else, ends a chunk. */
  lemma DelimitersExactly(s: string)
    ensures NoDelimiter(s) <==> ';' !in s && '{' !in s && '}' !in s
    ensures OneDelimiter(s) <==>
            s != "" && (s[|s| - 1] == ';' || s[|s| - 1] == '{' || s[|s| - 1] == '}') &&
            forall i | 0 <= i < |s| - 1 :: s[i] != ';' && s[i] != '{' && s[i] != '}'
  {
  }

  lemma ChunkDelta(s: string)
    requires OneDelimiter(s)
    ensures Balance(s) == (if '{' in s then 1 else 0) - (if '}' in s then 1 else 0)
  {
    BalanceOfPlain(s[..|s| - 1]);
    assert s == s[..|s| - 1] + [s[|s| - 1]];
    assert '{' !in s[..|s| - 1] && '}' !in s[..|s| - 1];
  }

  /** The depth counter of `get_context` over a sequence of lines. It counts each kind of brace
      at most once a line, which is right for chunks. */
  method ContextDepth(lines: seq<string>) returns (depth: int)
    ensures (forall l | l in lines :: OneDelimiter(l)) ==> depth == Balance(Concat(lines))
  {
    depth := 0;
    var i := 0;
    while i < |lines|
      invariant 0 <= i <= |lines|
      invariant (forall l | l in lines :: OneDelimiter(l)) ==> depth == Balance(Concat(lines[..i]))
    {
      if forall l | l in lines :: OneDelimiter(l) {
        ChunkDelta(lines[i]);
        assert lines[..i + 1][..i] == lines[..i];
        BalanceConcat(Concat(lines[..i]), lines[i]);
      }
      if '{' in lines[i] {
        depth := depth + 1;
      }
      if '}' in lines[i] {
        depth := depth - 1;
      }
      i := i + 1;
    }
    assert lines[..i] == lines;
  }

  /** Two braces of a kind on one line are counted once, so uncut lines would not do. */
  lemma UncutLineMiscounts()
    ensures exists l: string :: Balance(l) != (if '{' in l then 1 else 0) - (if '}' in l then 1 else 0)
  {
    var l := "{{";
    assert l[..1] == "{" && "{"[..0] == "";
    assert Balance(l) == 2;
  }

  /** The whole filter: the depth reached is the brace balance of the text without comments, for
      every input. */
  method FilteredDepth(lines: seq<string>) returns (depth: int)
    ensures depth == Balance(Strip(ToChars(lines)))
  {
    var text := ToChars(lines);
    var plain := RemoveMultilineComments(text);
    NewlinesStayOut(text);
    if TrailingSlash(text) {
      BalanceConcat(plain, "/");
      BalanceOfPlain("/");
    }
    var chunks, rest := AccLines(plain);
    depth := ContextDepth(chunks);
    BalanceConcat(Concat(chunks), rest);
    BalanceOfPlain(rest);
  }

  lemma {:induction false} NewlinesStayOut(s: string)
    requires '\n' !in s
    ensures '\n' !in Strip(s)
    decreases |s|
  {
    if |s| >= 2 {
      if s[0] == '/' && s[1] == '*' {
        SkipIsSuffix(s[2..]);
        NewlinesStayOut(SkipComment(s[2..]));
      } else {
        NewlinesStayOut(s[1..]);
      }
    }
  }

  lemma {:induction false} SkipIsSuffix(s: string)
    ensures forall c | c in SkipComment(s) :: c in s
  {
    if |s| >= 2 && !(s[0] == '*' && s[1] == '/') {
      SkipIsSuffix(s[1..]);
    }
  }
}

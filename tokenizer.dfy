/**
 * parse_args (cli.c): splits a console line into an argument vector. The line is
 * copied into one buffer; words are terminated in place by NUL characters and
 * argv holds the position of each word's first character in that buffer.
 *
 * The specification is the abstract lexer below: Run folds Step over the line,
 * keeping the three flags of the C code (quoted, escaped, whitespace) and the
 * words found so far. ParseArgs is the buffer-and-cursor loop, proved to leave
 * in the buffer exactly the words Tokenize computes.
 */
module Tokenizer {
  import opened Wrappers

  /** AST_MAX_ARGS: the size of every argv array. */
  const MaxArgs: nat := 64

  predicate IsBlank(c: char)
  {
    c == ' ' || c == '\t'
  }

  /** A C string: a character sequence with no NUL in it. */
  predicate IsCString(s: string)
  {
    '\0' !in s
  }

  datatype Lexer = Lexer(args: seq<string>, quoted: bool, escaped: bool, whitespace: bool)

  /** The state before the first character: not quoted, not escaped, at a word start. */
  const Start := Lexer([], false, false, true)

  /** What every reachable lexer state satisfies. */
  predicate Wf(st: Lexer)
  {
    |st.args| <= MaxArgs - 1 &&
    (forall k :: 0 <= k < |st.args| ==> |st.args[k]| > 0) &&
    (!st.whitespace ==> |st.args| > 0)
  }

  /**
   * The `normal:` label: coming off whitespace, start a new word unless the
   * argument vector is full (then the character is dropped and nothing else
   * changes, not even `escaped`); otherwise append to the current word.
   */
  function Emit(st: Lexer, c: char): (r: Lexer)
    requires Wf(st)
    ensures Wf(r)
  {
    if st.whitespace then
      if |st.args| >= MaxArgs - 1 then st
      else st.(args := st.args + [[c]], whitespace := false, escaped := false)
    else
      var n := |st.args|;
      st.(args := st.args[..n - 1] + [st.args[n - 1] + [c]], escaped := false)
  }

  /** One pass of the switch in parse_args. */
  function Step(st: Lexer, c: char): (r: Lexer)
    requires Wf(st)
    ensures Wf(r)
  {
    if c == '"' then
      if st.escaped then Emit(st, c) else st.(quoted := !st.quoted, escaped := false)
    else if IsBlank(c) then
      if !st.quoted && !st.escaped then st.(whitespace := true) else Emit(st, c)
    else if c == '\\' then
      if st.escaped then Emit(st, c) else st.(escaped := true)
    else
      Emit(st, c)
  }

  /** The lexer state after feeding the characters of t, left to right, to st. */
  function Run(st: Lexer, t: string): (r: Lexer)
    requires Wf(st)
    ensures Wf(r)
    decreases |t|
  {
    if |t| == 0 then st else Run(Step(st, t[0]), t[1..])
  }

  /**
   * The argument vector parse_args produces: at most AST_MAX_ARGS - 1 words
   * (so that argv[argc] can hold the NULL terminator), none of them empty.
   */
  function Tokenize(s: string): (args: seq<string>)
    ensures |args| < MaxArgs
    ensures forall k :: 0 <= k < |args| ==> |args[k]| > 0
  {
    Run(Start, s).args
  }

  // ---------------------------------------------------------------------
  // Properties of the lexer

  /** A line with neither quotes nor backslashes. */
  predicate Plain(t: string)
  {
    '"' !in t && '\\' !in t
  }

  /** The length of the run of non-blank characters at the start of t. */
  function WordLen(t: string): (n: nat)
    ensures n <= |t|
    ensures forall k :: 0 <= k < n ==> !IsBlank(t[k])
    ensures n == |t| || IsBlank(t[n])
  {
    if |t| == 0 || IsBlank(t[0]) then 0 else 1 + WordLen(t[1..])
  }

  /** Reference splitter: the maximal runs of non-blank characters of t, in order. */
  function Split(t: string): (r: seq<string>)
    ensures forall k :: 0 <= k < |r| ==> |r[k]| > 0
    decreases |t|
  {
    if |t| == 0 then []
    else if IsBlank(t[0]) then Split(t[1..])
    else [t[..WordLen(t)]] + Split(t[WordLen(t)..])
  }

  /** The first AST_MAX_ARGS - 1 elements of a. */
  function Cap(a: seq<string>): (r: seq<string>)
    ensures |r| < MaxArgs
  {
    if |a| < MaxArgs then a else a[..MaxArgs - 1]
  }

  /**
   * Inside a word, plain non-blank characters are appended to it; between
   * quotes, blanks are appended too.
   */
  lemma {:induction false} RunInWord(st: Lexer, u: string)
    requires Wf(st) && !st.escaped && !st.whitespace
    requires Plain(u) && (st.quoted || forall k :: 0 <= k < |u| ==> !IsBlank(u[k]))
    ensures Run(st, u) == st.(args := st.args[..|st.args| - 1] + [st.args[|st.args| - 1] + u])
    decreases |u|
  {
    var n := |st.args|;
    if |u| == 0 {
      assert st.args[n - 1] + u == st.args[n - 1];
      assert st.args[..n - 1] + [st.args[n - 1]] == st.args;
    } else {
      var st' := Step(st, u[0]);
      assert u[0] in u;
      assert st' == st.(args := st.args[..n - 1] + [st.args[n - 1] + [u[0]]]);
      assert forall k :: 0 <= k < |u[1..]| ==> u[1..][k] == u[k + 1];
      assert Plain(u[1..]) by {
        assert forall ch :: ch in u[1..] ==> ch in u;
      }
      RunInWord(st', u[1..]);
      assert st'.args[..n - 1] == st.args[..n - 1];
      assert st.args[n - 1] + [u[0]] + u[1..] == st.args[n - 1] + u;
    }
  }

  /**
   * Once AST_MAX_ARGS - 1 words are stored and the lexer is between words, no
   * further character of any kind (quote, backslash, blank or other) adds an
   * argument or extends the last one: the cap drops every later word start.
   */
  lemma {:induction false} RunFull(st: Lexer, t: string)
    requires Wf(st) && st.whitespace && |st.args| == MaxArgs - 1
    ensures Run(st, t).args == st.args && Run(st, t).whitespace
    decreases |t|
  {
    if |t| > 0 {
      var st' := Step(st, t[0]);
      assert st'.args == st.args && st'.whitespace;
      RunFull(st', t[1..]);
    }
  }

  /** At a word start, a plain line adds its words, up to the cap. */
  lemma {:induction false} RunPlain(st: Lexer, t: string)
    requires Wf(st) && !st.quoted && !st.escaped && st.whitespace
    requires Plain(t)
    ensures Run(st, t).args == Cap(st.args + Split(t))
    decreases |t|, 1
  {
    if |t| == 0 {
      assert st.args + [] == st.args;
    } else if |st.args| == MaxArgs - 1 {
      RunFull(st, t);
      assert (st.args + Split(t))[..MaxArgs - 1] == st.args;
    } else if IsBlank(t[0]) {
      assert Step(st, t[0]) == st;
      assert Plain(t[1..]) by {
        assert forall ch :: ch in t[1..] ==> ch in t;
      }
      RunPlain(st, t[1..]);
    } else {
      RunPlainWord(st, t);
    }
  }

  /** A line that is one plain word adds that word. */
  lemma OneWord(st: Lexer, t: string)
    requires Wf(st) && !st.quoted && !st.escaped && st.whitespace && |st.args| < MaxArgs - 1
    requires Plain(t) && |t| > 0 && !IsBlank(t[0]) && WordLen(t) == |t|
    ensures Run(st, t).args == Cap(st.args + Split(t))
  {
    RunFirstWord(st, t);
    assert t[|t|..] == [] && t[..|t|] == t;
    assert Split(t) == [t] + Split([]);
  }

  /** RunPlain when the line starts with a word and there is room for it. */
  lemma {:induction false} RunPlainWord(st: Lexer, t: string)
    requires Wf(st) && !st.quoted && !st.escaped && st.whitespace && |st.args| < MaxArgs - 1
    requires Plain(t) && |t| > 0 && !IsBlank(t[0])
    ensures Run(st, t).args == Cap(st.args + Split(t))
    decreases |t|, 0
  {
    var n := WordLen(t);
    var w := t[..n];
    if n == |t| {
      OneWord(st, t);
    } else {
      var st3 := st.(args := st.args + [w], whitespace := true);
      var rest := t[n + 1..];
      assert Wf(st3) && Plain(rest) && Run(st, t) == Run(st3, rest) && Split(t) == [w] + Split(rest) by {
        RunFirstWord(st, t);
        AfterFirstWord(st, t, n, w, st3, rest);
      }
      RunPlain(st3, rest);
      assert st3.args + Split(rest) == st.args + Split(t) by {
        assert st.args + ([w] + Split(rest)) == (st.args + [w]) + Split(rest);
      }
    }
  }

  /** The blank that ends the first word w of a plain line, and what is left after it. */
  lemma AfterFirstWord(st: Lexer, t: string, n: nat, w: string, st3: Lexer, rest: string)
    requires Wf(st) && !st.quoted && !st.escaped && st.whitespace && |st.args| < MaxArgs - 1
    requires Plain(t) && |t| > 0 && !IsBlank(t[0]) && n == WordLen(t) && n < |t|
    requires w == t[..n] && rest == t[n + 1..] && st3 == st.(args := st.args + [w], whitespace := true)
    requires Run(st, t) == Run(st.(args := st.args + [w], whitespace := false), t[n..])
    ensures Wf(st3) && Plain(rest)
    ensures Run(st, t) == Run(st3, rest)
    ensures Split(t) == [w] + Split(rest)
  {
    var st2 := st.(args := st.args + [w], whitespace := false);
    assert IsBlank(t[n]) && t[n] in t;
    assert Step(st2, t[n]) == st3;
    assert t[n..][0] == t[n] && t[n..][1..] == rest;
    assert Plain(rest) by {
      assert forall ch :: ch in rest ==> ch in t;
    }
    assert Split(t[n..]) == Split(rest);
  }

  /** At a word start with room left, the first word of a plain line becomes a new argument. */
  lemma RunFirstWord(st: Lexer, t: string)
    requires Wf(st) && !st.quoted && !st.escaped && st.whitespace && |st.args| < MaxArgs - 1
    requires Plain(t) && |t| > 0 && !IsBlank(t[0])
    ensures Run(st, t) == Run(st.(args := st.args + [t[..WordLen(t)]], whitespace := false), t[WordLen(t)..])
  {
    var n := WordLen(t);
    assert t[0] in t;
    var st1 := Step(st, t[0]);
    assert st1 == st.(args := st.args + [[t[0]]], whitespace := false);
    var u := t[1..n];
    assert Plain(u) by {
      assert forall ch :: ch in u ==> ch in t;
    }
    assert forall k :: 0 <= k < |u| ==> u[k] == t[k + 1];
    RunInWord(st1, u);
    assert [t[0]] + u == t[..n];
    RunSplit(st1, t[1..], n - 1);
    assert t[1..][..n - 1] == u && t[1..][n - 1..] == t[n..];
  }

  /**
   * A quoted string at a word start becomes one argument, blanks and all; the
   * quote characters themselves are not part of it.
   */
  lemma QuotedArgument(st: Lexer, u: string)
    requires Wf(st) && !st.quoted && !st.escaped && st.whitespace && |st.args| < MaxArgs - 1
    requires Plain(u) && |u| > 0
    ensures Run(st, "\"" + u + "\"") == st.(args := st.args + [u], whitespace := false)
  {
    var t := "\"" + u + "\"";
    var st1 := st.(quoted := true);
    assert Step(st, t[0]) == st1;
    assert t[1..] == u + "\"";
    RunSplit(st1, u + "\"", |u|);
    assert (u + "\"")[..|u|] == u && (u + "\"")[|u|..] == "\"";
    assert u[0] in u;
    var st2 := st1.(args := st.args + [[u[0]]], whitespace := false);
    assert Step(st1, u[0]) == st2;
    assert Plain(u[1..]) by {
      assert forall ch :: ch in u[1..] ==> ch in u;
    }
    RunInWord(st2, u[1..]);
    assert [u[0]] + u[1..] == u;
    assert (st.args + [[u[0]]])[..|st.args|] == st.args;
  }

  /** A quote that is never closed still ends its argument at the end of the line. */
  lemma UnterminatedQuote(st: Lexer, u: string)
    requires Wf(st) && !st.quoted && !st.escaped && st.whitespace && |st.args| < MaxArgs - 1
    requires Plain(u) && |u| > 0
    ensures Run(st, "\"" + u) == st.(args := st.args + [u], whitespace := false, quoted := true)
  {
    var t := "\"" + u;
    var st1 := st.(quoted := true);
    assert t[0] == '"' && t[1..] == u;
    assert Run(st, t) == Run(st1, u);
    assert u[0] in u;
    var st2 := st1.(args := st.args + [[u[0]]], whitespace := false);
    assert Step(st1, u[0]) == st2;
    assert Plain(u[1..]) by {
      assert forall ch :: ch in u[1..] ==> ch in u;
    }
    RunInWord(st2, u[1..]);
    assert [u[0]] + u[1..] == u;
    assert (st.args + [[u[0]]])[..|st.args|] == st.args;
  }

  /**
   * Two plain words and a quoted argument: the quoted one keeps its blanks and
   * loses its quotes.
   */
  lemma {:induction false} TwoWordsThenQuoted(w1: string, w2: string, u: string)
    requires Bare(w1) && Bare(w2) && Plain(u) && |u| > 0
    ensures Tokenize(w1 + " " + w2 + " " + "\"" + u + "\"") == [w1, w2, u]
  {
    var s1 := w1 + " ";
    var s2 := s1 + w2;
    var p := s2 + " ";
    var q := "\"" + u + "\"";
    var st1 := Lexer([w1], false, false, false);
    var st1b := st1.(whitespace := true);
    var st2 := Lexer([w1, w2], false, false, false);
    var st2b := st2.(whitespace := true);
    Word(Start, w1);
    assert Run(Start, w1) == st1 by {
      assert [] + [w1] == [w1];
    }
    Blank(st1);
    RunConcat(Start, w1, " ");
    assert Run(Start, s1) == st1b;
    Word(st1b, w2);
    assert [w1] + [w2] == [w1, w2];
    RunConcat(Start, s1, w2);
    assert Run(Start, s2) == st2;
    Blank(st2);
    RunConcat(Start, s2, " ");
    assert Run(Start, p) == st2b;
    QuotedArgument(st2b, u);
    assert [w1, w2] + [u] == [w1, w2, u];
    RunConcat(Start, p, q);
    assert Run(Start, p + q).args == [w1, w2, u];
    assert p + "\"" + u + "\"" == p + q;
  }

  /** The line show channel "My Phone" (written piece by piece) names the channel My Phone. */
  lemma QuotedChannelExample()
    ensures Tokenize("show" + " " + "channel" + " " + "\"" + "My Phone" + "\"") == ["show", "channel", "My Phone"]
  {
    TwoWordsThenQuoted("show", "channel", "My Phone");
  }

  /** A non-empty word with no blank, quote or backslash. */
  predicate Bare(w: string)
  {
    |w| > 0 && Plain(w) && ' ' !in w && '\t' !in w
  }

  /** At a word start with room left, a bare word becomes the next argument. */
  lemma Word(st: Lexer, w: string)
    requires Wf(st) && !st.quoted && !st.escaped && st.whitespace && |st.args| < MaxArgs - 1
    requires Bare(w)
    ensures Run(st, w) == st.(args := st.args + [w], whitespace := false)
  {
    assert w[0] in w && !IsBlank(w[0]);
    var st1 := st.(args := st.args + [[w[0]]], whitespace := false);
    assert Step(st, w[0]) == st1;
    assert Plain(w[1..]) by {
      assert forall ch :: ch in w[1..] ==> ch in w;
    }
    assert forall k :: 0 <= k < |w[1..]| ==> w[1..][k] == w[k + 1] && w[k + 1] in w;
    RunInWord(st1, w[1..]);
    assert [w[0]] + w[1..] == w;
    assert (st.args + [[w[0]]])[..|st.args|] == st.args;
  }

  /** Outside quotes, a blank ends the current word. */
  lemma Blank(st: Lexer)
    requires Wf(st) && !st.quoted && !st.escaped
    ensures Run(st, " ") == st.(whitespace := true)
  {
    assert " "[0] == ' ' && " "[1..] == "";
  }

  /** Running over a + b is running over a, then over b. */
  lemma RunConcat(st: Lexer, a: string, b: string)
    requires Wf(st)
    ensures Run(st, a + b) == Run(Run(st, a), b)
  {
    RunSplit(st, a + b, |a|);
    assert (a + b)[..|a|] == a && (a + b)[|a|..] == b;
  }

  /** A backslash before a blank keeps the blank inside the word: x\ y is the one argument "x y". */
  lemma EscapedBlank(x: char, y: char)
    requires Bare([x]) && Bare([y])
    ensures Tokenize([x, '\\', ' ', y]) == [[x, ' ', y]]
  {
    assert x in [x] && y in [y];
    var s := [x, '\\', ' ', y];
    var st1 := Lexer([[x]], false, false, false);
    var st2 := st1.(escaped := true);
    var st3 := Lexer([[x, ' ']], false, false, false);
    var st4 := Lexer([[x, ' ', y]], false, false, false);
    assert Step(Start, x) == st1;
    assert Step(st1, '\\') == st2;
    assert [x] + [' '] == [x, ' '];
    assert Step(st2, ' ') == st3;
    assert [x, ' '] + [y] == [x, ' ', y];
    assert Step(st3, y) == st4;
    assert s[1..] == ['\\', ' ', y] && s[1..][1..] == [' ', y] && s[1..][1..][1..] == [y] && [y][1..] == [];
    assert Run(Start, s) == Run(st1, s[1..]) == Run(st2, s[1..][1..]) == Run(st3, [y]) == st4;
  }

  /** The line a\ b is the one argument "a b". */
  lemma EscapedBlankExample()
    ensures Tokenize("a\\ b") == ["a b"]
  {
    EscapedBlank('a', 'b');
  }

  /** After a backslash, the next character, whatever it is, goes to the `normal:` label. */
  lemma Escaped(st: Lexer, c: char)
    requires Wf(st) && !st.escaped
    ensures Run(st, ['\\', c]) == Emit(st.(escaped := true), c)
  {
    var st1 := st.(escaped := true);
    assert Step(st, '\\') == st1;
    assert Step(st1, c) == Emit(st1, c);
    assert ['\\', c][1..] == [c] && [c][1..] == [];
    assert Run(st, ['\\', c]) == Run(st1, [c]) == Run(Step(st1, c), []);
  }

  /** At a word start with room left, a backslash makes the next character, whatever it is, a new word. */
  lemma EscapeAtWordStart(st: Lexer, c: char)
    requires Wf(st) && !st.escaped && st.whitespace && |st.args| < MaxArgs - 1
    ensures Run(st, ['\\', c]) == st.(args := st.args + [[c]], whitespace := false)
  {
    Escaped(st, c);
  }

  /** Inside a word, a backslash appends the next character, whatever it is, to the word. */
  lemma EscapeInWord(st: Lexer, c: char)
    requires Wf(st) && !st.escaped && !st.whitespace
    ensures Run(st, ['\\', c]) == st.(args := st.args[..|st.args| - 1] + [st.args[|st.args| - 1] + [c]])
  {
    Escaped(st, c);
  }

  /** An escaped quote is a literal quote: \"w is the one argument "w. */
  lemma EscapedQuote(w: string)
    requires Bare(w)
    ensures Tokenize(['\\', '"'] + w) == [['"'] + w]
  {
    var st1 := Lexer([['"']], false, false, false);
    EscapeAtWordStart(Start, '"');
    RunConcat(Start, ['\\', '"'], w);
    assert forall k :: 0 <= k < |w| ==> w[k] in w;
    RunInWord(st1, w);
    assert [['"']][..0] == [];
  }

  /** A doubled backslash is one literal backslash: x\\y is the one argument x\y. */
  lemma EscapedBackslash(x: string, y: string)
    requires Bare(x) && Bare(y)
    ensures Tokenize(x + ['\\', '\\'] + y) == [x + ['\\'] + y]
  {
    var st1 := Lexer([x], false, false, false);
    var st2 := Lexer([x + ['\\']], false, false, false);
    Word(Start, x);
    RunConcat(Start, x, ['\\', '\\']);
    EscapeInWord(st1, '\\');
    assert [x][..0] == [];
    RunConcat(Start, x + ['\\', '\\'], y);
    assert forall k :: 0 <= k < |y| ==> y[k] in y;
    RunInWord(st2, y);
    assert [x + ['\\']][..0] == [];
  }

  /** The line \"x is the one argument "x. */
  lemma EscapedQuoteExample()
    ensures Tokenize("\\\"x") == ["\"x"]
  {
    assert Bare("x") by { assert "x"[0] == 'x'; }
    EscapedQuote("x");
    assert ['\\', '"'] + "x" == "\\\"x";
    assert ['"'] + "x" == "\"x";
  }

  /** The line a\\b is the one argument a\b. */
  lemma EscapedBackslashExample()
    ensures Tokenize("a\\\\b") == ["a\\b"]
  {
    assert Bare("a") by { assert "a"[0] == 'a'; }
    assert Bare("b") by { assert "b"[0] == 'b'; }
    EscapedBackslash("a", "b");
    assert "a" + ['\\', '\\'] + "b" == "a\\\\b";
    assert "a" + ['\\'] + "b" == "a\\b";
  }

  /** Running over t is running over its first m characters, then the rest. */
  lemma {:induction false} RunSplit(st: Lexer, t: string, m: nat)
    requires Wf(st) && m <= |t|
    ensures Run(st, t) == Run(Run(st, t[..m]), t[m..])
    decreases m
  {
    if m > 0 {
      assert t[..m][0] == t[0] && t[..m][1..] == t[1..][..m - 1];
      RunSplit(Step(st, t[0]), t[1..], m - 1);
      assert t[1..][m - 1..] == t[m..];
    } else {
      assert t[..0] == [] && t[0..] == t;
    }
  }

  /**
   * On a line with no quotes and no backslashes, parse_args splits at blanks and
   * keeps the first AST_MAX_ARGS - 1 words; the rest of the line is dropped.
   */
  lemma PlainTokenize(s: string)
    requires Plain(s)
    ensures Tokenize(s) == Cap(Split(s))
  {
    RunPlain(Start, s);
    assert [] + Split(s) == Split(s);
  }

  // ---------------------------------------------------------------------
  // The buffer

  /** The C string that starts at position p of buffer w: up to the first NUL. */
  function CStr(w: seq<char>, p: nat): string
    decreases |w| - p
  {
    if p >= |w| || w[p] == '\0' then "" else [w[p]] + CStr(w, p + 1)
  }

  /** What argv points at, word by word. */
  function Words(w: seq<char>, argv: seq<Option<nat>>): (r: seq<string>)
    ensures |r| == |argv|
  {
    seq(|argv|, k requires 0 <= k < |argv| => if argv[k].Some? then CStr(w, argv[k].value) else "")
  }

  /** Once a NUL follows p, appending to the buffer does not change the string at p. */
  lemma {:induction false} CStrExtend(w: seq<char>, u: seq<char>, p: nat)
    requires p <= |w| && '\0' in w[p..]
    ensures CStr(w + u, p) == CStr(w, p)
    decreases |w| - p
  {
    assert (w + u)[p] == w[p];
    if w[p] != '\0' {
      assert w[p..] == [w[p]] + w[p + 1..];
      CStrExtend(w, u, p + 1);
    }
  }

  /** With no NUL after p, appending c extends the string at p by c, or by nothing for a NUL. */
  lemma {:induction false} CStrSnoc(w: seq<char>, c: char, p: nat)
    requires p <= |w| && '\0' !in w[p..]
    ensures CStr(w + [c], p) == CStr(w, p) + (if c == '\0' then "" else [c])
    decreases |w| - p
  {
    if p == |w| {
      assert (w + [c])[p] == c;
      if c != '\0' {
        assert CStr(w + [c], p + 1) == "";
      }
    } else {
      assert (w + [c])[p] == w[p];
      assert w[p..] == [w[p]] + w[p + 1..];
      CStrSnoc(w, c, p + 1);
    }
  }

  /**
   * The buffer prefix w and the argument slots ptrs hold the words `args`:
   * every slot points into w, every word but the last is already
   * NUL-terminated, and the last one is terminated exactly when the lexer is
   * at a word start.
   */
  ghost predicate Models(w: seq<char>, ptrs: seq<Option<nat>>, args: seq<string>, ws: bool)
  {
    |ptrs| == |args| &&
    (forall k :: 0 <= k < |ptrs| ==> ptrs[k].Some? && ptrs[k].value <= |w|) &&
    Words(w, ptrs) == args &&
    (forall k :: 0 <= k < |ptrs| - 1 ==> '\0' in w[ptrs[k].value..]) &&
    (|ptrs| > 0 ==> (ws <==> '\0' in w[ptrs[|ptrs| - 1].value..]))
  }

  /** Writing a NUL (end of word) leaves every word as it is and terminates them all. */
  lemma ModelsNul(w: seq<char>, ptrs: seq<Option<nat>>, args: seq<string>, ws: bool)
    requires Models(w, ptrs, args, ws)
    ensures Models(w + ['\0'], ptrs, args, true)
  {
    forall k | 0 <= k < |ptrs|
      ensures CStr(w + ['\0'], ptrs[k].value) == args[k] && '\0' in (w + ['\0'])[ptrs[k].value..]
    {
      var p := ptrs[k].value;
      assert CStr(w, p) == args[k] by {
        assert Words(w, ptrs)[k] == args[k];
      }
      if '\0' in w[p..] {
        CStrExtend(w, ['\0'], p);
      } else {
        CStrSnoc(w, '\0', p);
      }
      assert (w + ['\0'])[p..] == w[p..] + ['\0'];
    }
  }

  /** Appending a character to the open last word. */
  lemma ModelsAppend(w: seq<char>, ptrs: seq<Option<nat>>, args: seq<string>, c: char)
    requires Models(w, ptrs, args, false) && |ptrs| > 0 && c != '\0'
    ensures Models(w + [c], ptrs, args[..|args| - 1] + [args[|args| - 1] + [c]], false)
  {
    var n := |ptrs|;
    var args' := args[..n - 1] + [args[n - 1] + [c]];
    forall k | 0 <= k < n
      ensures CStr(w + [c], ptrs[k].value) == args'[k]
      ensures k < n - 1 ==> '\0' in (w + [c])[ptrs[k].value..]
      ensures k == n - 1 ==> '\0' !in (w + [c])[ptrs[k].value..]
    {
      var p := ptrs[k].value;
      assert CStr(w, p) == args[k] by {
        assert Words(w, ptrs)[k] == args[k];
      }
      assert (w + [c])[p..] == w[p..] + [c];
      if k < n - 1 {
        CStrExtend(w, [c], p);
      } else {
        CStrSnoc(w, c, p);
      }
    }
  }

  /** Starting a new word at the end of the buffer. */
  lemma ModelsStart(w: seq<char>, ptrs: seq<Option<nat>>, args: seq<string>, c: char)
    requires Models(w, ptrs, args, true) && c != '\0'
    ensures Models(w + [c], ptrs + [Some(|w|)], args + [[c]], false)
  {
    var n := |ptrs|;
    var w' := w + [c];
    var ptrs' := ptrs + [Some(|w|)];
    var args' := args + [[c]];
    OldWordsKept(w, ptrs, args, c);
    assert CStr(w', |w| + 1) == "";
    assert CStr(w', |w|) == [c];
    assert w'[|w|..] == [c];
    assert forall k :: 0 <= k < n ==> ptrs'[k] == ptrs[k] && args'[k] == args[k];
    assert Words(w', ptrs') == args' by {
      forall k | 0 <= k < n + 1
        ensures Words(w', ptrs')[k] == args'[k]
      {
        if k < n {
          assert Words(w', ptrs)[k] == args[k];
        }
      }
    }
    assert forall k :: 0 <= k < n ==> '\0' in w'[ptrs'[k].value..];
  }

  /** Appending a character after every word is terminated keeps every word and its NUL. */
  lemma OldWordsKept(w: seq<char>, ptrs: seq<Option<nat>>, args: seq<string>, c: char)
    requires Models(w, ptrs, args, true)
    ensures Words(w + [c], ptrs) == args
    ensures forall k :: 0 <= k < |ptrs| ==> '\0' in (w + [c])[ptrs[k].value..]
  {
    forall k | 0 <= k < |ptrs|
      ensures Words(w + [c], ptrs)[k] == args[k] && '\0' in (w + [c])[ptrs[k].value..]
    {
      var p := ptrs[k].value;
      assert Words(w, ptrs)[k] == args[k];
      assert (w + [c])[p..] == w[p..] + [c];
      CStrExtend(w, [c], p);
    }
  }

  /** Once every word is terminated, what follows in the buffer does not matter. */
  lemma ModelsExtend(w: seq<char>, u: seq<char>, ptrs: seq<Option<nat>>, args: seq<string>)
    requires Models(w, ptrs, args, true)
    ensures Words(w + u, ptrs) == args
  {
    forall k | 0 <= k < |ptrs|
      ensures Words(w + u, ptrs)[k] == args[k]
    {
      assert Words(w, ptrs)[k] == args[k];
      CStrExtend(w, u, ptrs[k].value);
    }
  }

  /** What one pass of the switch writes at the cursor: nothing, a NUL, or the character. */
  function Out(st: Lexer, c: char): (r: string)
    ensures |r| <= 1
  {
    if c == '"' then
      if st.escaped then EmitOut(st, c) else []
    else if IsBlank(c) then
      if !st.quoted && !st.escaped then ['\0'] else EmitOut(st, c)
    else if c == '\\' then
      if st.escaped then EmitOut(st, c) else []
    else
      EmitOut(st, c)
  }

  function EmitOut(st: Lexer, c: char): string
  {
    if st.whitespace && |st.args| >= MaxArgs - 1 then [] else [c]
  }

  /** The slot a pass of the switch fills in argv: the cursor, when a new word starts there. */
  function NewSlot(st: Lexer, c: char, cur: nat): seq<Option<nat>>
    requires Wf(st)
  {
    if |Step(st, c).args| > |st.args| then [Some(cur)] else []
  }

  /** One pass of the switch keeps the buffer in step with the lexer. */
  lemma ModelsStep(w: seq<char>, ptrs: seq<Option<nat>>, st: Lexer, c: char)
    requires Wf(st) && Models(w, ptrs, st.args, st.whitespace) && c != '\0'
    ensures Models(w + Out(st, c), ptrs + NewSlot(st, c, |w|), Step(st, c).args, Step(st, c).whitespace)
  {
    var emits := if c == '"' then st.escaped
      else if IsBlank(c) then st.quoted || st.escaped
      else if c == '\\' then st.escaped
      else true;
    if !emits {
      if IsBlank(c) {
        assert Out(st, c) == ['\0'] && Step(st, c) == st.(whitespace := true);
        ModelsNul(w, ptrs, st.args, st.whitespace);
      } else {
        assert Out(st, c) == [] && Step(st, c).args == st.args;
        assert Step(st, c).whitespace == st.whitespace;
        assert w + [] == w && ptrs + [] == ptrs;
      }
    } else {
      assert Step(st, c) == Emit(st, c) && Out(st, c) == EmitOut(st, c);
      ModelsEmit(w, ptrs, st, c);
    }
  }

  /** The `normal:` label keeps the buffer in step with the lexer. */
  lemma ModelsEmit(w: seq<char>, ptrs: seq<Option<nat>>, st: Lexer, c: char)
    requires Wf(st) && Models(w, ptrs, st.args, st.whitespace) && c != '\0'
    ensures Models(w + EmitOut(st, c), ptrs + (if |Emit(st, c).args| > |st.args| then [Some(|w|)] else []),
                   Emit(st, c).args, Emit(st, c).whitespace)
  {
    if st.whitespace && |st.args| >= MaxArgs - 1 {
      assert Emit(st, c) == st && EmitOut(st, c) == [];
      assert w + [] == w && ptrs + [] == ptrs;
    } else if st.whitespace {
      ModelsStart(w, ptrs, st.args, c);
    } else {
      ModelsAppend(w, ptrs, st.args, c);
      assert ptrs + [] == ptrs;
    }
  }

  /** The array contents a after writing the (at most one) element of out at position at. */
  function Written<T>(a: seq<T>, at: nat, out: seq<T>): (r: seq<T>)
    requires |out| <= 1 && (|out| == 1 ==> at < |a|)
    ensures |r| == |a|
  {
    if |out| == 1 then a[at := out[0]] else a
  }

  /** Writing out just past a prefix p of a extends the prefix by out and leaves the suffix past it alone. */
  lemma WrittenExtends<T>(a: seq<T>, at: nat, out: seq<T>, p: seq<T>)
    requires |out| <= 1 && at + |out| <= |a| && a[..at] == p
    ensures Written(a, at, out)[..at + |out|] == p + out
    ensures Written(a, at, out)[at + |out|..] == a[at + |out|..]
  {
  }

  /**
   * One pass of the switch in parse_args over the character c, writing through
   * the cursor: it writes Out(st, c) at cur and, when a word starts, records cur
   * in argv[x]; the flags and counters come out as Step says.
   */
  method Feed(dup: array<char>, argv: array<Option<nat>>, c: char, cur: nat, x: nat,
              quoted: bool, escaped: bool, whitespace: bool, ghost st: Lexer)
    returns (cur': nat, x': nat, quoted': bool, escaped': bool, whitespace': bool)
    requires Wf(st) && st == Lexer(st.args, quoted, escaped, whitespace) && x == |st.args|
    requires argv.Length == MaxArgs && cur < dup.Length
    modifies dup, argv
    ensures Step(st, c) == Lexer(Step(st, c).args, quoted', escaped', whitespace')
    ensures cur' == cur + |Out(st, c)| && x' == x + |NewSlot(st, c, cur)|
    ensures dup[..] == Written(old(dup[..]), cur, Out(st, c))
    ensures argv[..] == Written(old(argv[..]), x, NewSlot(st, c, cur))
  {
    cur', x', quoted', escaped', whitespace' := cur, x, quoted, escaped, whitespace;
    if c == '"' && !escaped {
      quoted' := !quoted;
      escaped' := false;
    } else if IsBlank(c) && !quoted && !escaped {
      whitespace' := true;
      dup[cur] := '\0';
      cur' := cur + 1;
    } else if c == '\\' && !escaped {
      escaped' := true;
    } else {
      // normal:
      if whitespace && x >= MaxArgs - 1 {
        // too many arguments: the character is dropped
      } else {
        if whitespace {
          argv[x] := Some(cur);
          x' := x + 1;
          whitespace' := false;
        }
        dup[cur] := c;
        cur' := cur + 1;
        escaped' := false;
      }
    }
  }

  /**
   * One iteration of the loop of parse_args: Feed over c, keeping the words
   * written so far (buf) and the argv slots filled so far (ptrs) in step with
   * the lexer.
   */
  method ScanChar(dup: array<char>, argv: array<Option<nat>>, c: char, cur: nat, x: nat,
                  quoted: bool, escaped: bool, whitespace: bool, ghost st: Lexer, ghost buf: seq<char>,
                  ghost ptrs: seq<Option<nat>>, ghost orig: seq<Option<nat>>)
    returns (cur': nat, x': nat, quoted': bool, escaped': bool, whitespace': bool, ghost st': Lexer,
             ghost buf': seq<char>, ghost ptrs': seq<Option<nat>>)
    requires Wf(st) && st == Lexer(st.args, quoted, escaped, whitespace) && c != '\0'
    requires x == |ptrs| == |st.args| && argv.Length == MaxArgs && |orig| == MaxArgs
    requires argv[..x] == ptrs && argv[x..] == orig[x..]
    requires |buf| == cur < dup.Length && dup[..cur] == buf
    requires Models(buf, ptrs, st.args, whitespace)
    modifies dup, argv
    ensures st' == Step(st, c) && Wf(st') && st' == Lexer(st'.args, quoted', escaped', whitespace')
    ensures x' == |ptrs'| == |st'.args| && argv[..x'] == ptrs' && argv[x'..] == orig[x'..]
    ensures |buf'| == cur' <= cur + 1 && dup[..cur'] == buf'
    ensures Models(buf', ptrs', st'.args, whitespace')
  {
    ModelsStep(buf, ptrs, st, c);
    var out, slot := Out(st, c), NewSlot(st, c, cur);
    ghost var d0, a0 := dup[..], argv[..];
    cur', x', quoted', escaped', whitespace' := Feed(dup, argv, c, cur, x, quoted, escaped, whitespace, st);
    WrittenExtends(d0, |buf|, out, buf);
    WrittenExtends(a0, |ptrs|, slot, ptrs);
    assert a0[|ptrs|..][|slot|..] == orig[|ptrs| + |slot|..];
    st', buf', ptrs' := Step(st, c), buf + out, ptrs + slot;
  }

  /**
   * The loop of parse_args: walks s once, writing the words through the cursor
   * into dup and their positions into argv. On exit the cursor has written buf
   * and the argv slots ptrs, which together hold the words of Tokenize(s).
   */
  method Scan(s: string, dup: array<char>, argv: array<Option<nat>>)
    returns (cur: nat, x: nat, ghost buf: seq<char>, ghost ptrs: seq<Option<nat>>, ghost ws: bool)
    requires IsCString(s)
    requires argv.Length == MaxArgs && dup.Length == |s| + 1
    modifies dup, argv
    ensures cur <= |s| && |buf| == cur && dup[..cur] == buf
    ensures x == |ptrs| == |Tokenize(s)| && argv[..x] == ptrs && argv[x..] == old(argv[..])[x..]
    ensures Models(buf, ptrs, Tokenize(s), ws)
  {
    ghost var orig := argv[..];
    cur, x := 0, 0;
    var quoted, escaped, whitespace := false, false, true;
    ptrs, buf := [], [];
    ghost var st := Start;
    var i := 0;
    while i < |s|
      invariant 0 <= i <= |s|
      invariant cur <= i
      invariant Wf(st) && Run(st, s[i..]) == Run(Start, s)
      invariant st == Lexer(st.args, quoted, escaped, whitespace)
      invariant x == |ptrs| == |st.args|
      invariant argv[..x] == ptrs && argv[x..] == orig[x..]
      invariant |buf| == cur && dup[..cur] == buf
      invariant Models(buf, ptrs, st.args, whitespace)
    {
      assert s[i..][1..] == s[i + 1..];
      assert s[i] != '\0';
      cur, x, quoted, escaped, whitespace, st, buf, ptrs :=
        ScanChar(dup, argv, s[i], cur, x, quoted, escaped, whitespace, st, buf, ptrs, orig);
      i := i + 1;
    }
    assert s[|s|..] == [];
    ws := whitespace;
  }

  /**
   * parse_args: copies s into a fresh buffer of strlen(s) + 1 characters (the
   * strdup; allocation failure is the parameter allocFails), then walks s,
   * writing through the cursor `cur`. Every write is an index into that buffer,
   * so no more than strlen(s) + 1 characters are ever written. On success argv
   * holds argc word positions followed by NULL, they spell out Tokenize(s), and
   * the slots past the terminator are not touched.
   */
  method ParseArgs(s: string, argv: array<Option<nat>>, allocFails: bool) returns (dup: array?<char>, argc: nat)
    requires IsCString(s)
    requires argv.Length == MaxArgs
    modifies argv
    ensures dup == null <==> allocFails
    ensures dup == null ==> argc == 0 && argv[..] == old(argv[..])
    ensures dup != null ==> fresh(dup) && dup.Length == |s| + 1
    ensures dup != null ==> argc == |Tokenize(s)| && argv[argc] == None
    ensures dup != null ==> forall k :: 0 <= k < argc ==> argv[k].Some? && argv[k].value <= |s|
    ensures dup != null ==> Words(dup[..], argv[..argc]) == Tokenize(s)
    ensures argv[argc + 1..] == old(argv[argc + 1..])
  {
    if allocFails {
      return null, 0;
    }
    dup := new char[|s| + 1](k requires 0 <= k < |s| + 1 => if k < |s| then s[k] else '\0');
    var cur, x;
    ghost var buf, ptrs, ws;
    cur, x, buf, ptrs, ws := Scan(s, dup, argv);
    dup[cur] := '\0';
    argv[x] := None;
    assert dup[..cur + 1] == buf + ['\0'];
    ModelsNul(buf, ptrs, Tokenize(s), ws);
    assert dup[..] == dup[..cur + 1] + dup[cur + 1..];
    ModelsExtend(dup[..cur + 1], dup[cur + 1..], ptrs, Tokenize(s));
    assert argv[..x] == ptrs;
    argc := x;
  }
}

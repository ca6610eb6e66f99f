/**
 * The two walks of cli.c that visit every command: help_workhorse (the help
 * listing) and ast_cli_generator (completion). Both advance two cursors, one
 * over the builtins table and one over the helpers list, and at each step take
 * the helper when its space-joined path is strictly below the builtin's under
 * strcmp, or when the builtins are used up.
 *
 * This module holds the specifications those walks are proved against: the
 * merged order, the listing it prints, and the completion it picks.
 */
module Listing {
  import opened Wrappers
  import opened CliText
  import opened Matching

  /** The string both walks compare and filter on: the path joined with spaces. */
  function Key(e: Entry): string
  {
    Joined(e.cmda)
  }

  // ---------------------------------------------------------------------
  // The merge

  /**
   * The choice at cursors i (builtins) and j (helpers): the helper is taken when
   * the builtins are exhausted or when its path sorts strictly before the
   * builtin's. This is the guard of help_workhorse; ast_cli_generator means the
   * same but writes it differently (see TakeHelperAsWritten).
   */
  predicate TakeHelper(b: seq<Entry>, h: seq<Entry>, i: nat, j: nat)
  {
    i >= |b| || (j < |h| && StrLess(Key(h[j]), Key(b[i])))
  }

  /** The entries the walk visits from cursors i and j on, in order. */
  function MergeFrom(b: seq<Entry>, h: seq<Entry>, i: nat, j: nat): seq<Entry>
    requires i <= |b| && j <= |h|
    decreases |b| - i + |h| - j
  {
    if i == |b| && j == |h| then []
    else if TakeHelper(b, h, i, j) then [h[j]] + MergeFrom(b, h, i, j + 1)
    else [b[i]] + MergeFrom(b, h, i + 1, j)
  }

  /** The whole walk, from the start of both sources. */
  function Merge(b: seq<Entry>, h: seq<Entry>): seq<Entry>
  {
    MergeFrom(b, h, 0, 0)
  }

  /** With no helpers registered, the walk visits the builtins in table order. */
  lemma {:induction false} MergeNoHelpers(b: seq<Entry>, i: nat)
    requires i <= |b|
    ensures MergeFrom(b, [], i, 0) == b[i..]
    decreases |b| - i
  {
    if i < |b| {
      MergeNoHelpers(b, i + 1);
      assert b[i..] == [b[i]] + b[i + 1..];
    }
  }

  /** m is an interleaving of b and h: both appear in it whole, each in its own order. */
  predicate Interleaves(m: seq<Entry>, b: seq<Entry>, h: seq<Entry>)
    decreases |m|
  {
    if |m| == 0 then b == [] && h == []
    else (|b| > 0 && m[0] == b[0] && Interleaves(m[1..], b[1..], h)) ||
         (|h| > 0 && m[0] == h[0] && Interleaves(m[1..], b, h[1..]))
  }

  lemma {:induction false} MergeFromInterleaves(b: seq<Entry>, h: seq<Entry>, i: nat, j: nat)
    requires i <= |b| && j <= |h|
    ensures Interleaves(MergeFrom(b, h, i, j), b[i..], h[j..])
    decreases |b| - i + |h| - j
  {
    if i == |b| && j == |h| {
    } else if TakeHelper(b, h, i, j) {
      MergeFromInterleaves(b, h, i, j + 1);
      assert h[j..][1..] == h[j + 1..];
    } else {
      MergeFromInterleaves(b, h, i + 1, j);
      assert b[i..][1..] == b[i + 1..];
    }
  }

  /** The walk visits the builtins and the helpers, all of them, each source in its own order. */
  lemma MergeInterleaves(b: seq<Entry>, h: seq<Entry>)
    ensures Interleaves(Merge(b, h), b, h)
  {
    MergeFromInterleaves(b, h, 0, 0);
    assert b[0..] == b && h[0..] == h;
  }

  lemma {:induction false} InterleavesMultiset(m: seq<Entry>, b: seq<Entry>, h: seq<Entry>)
    requires Interleaves(m, b, h)
    ensures multiset(m) == multiset(b) + multiset(h)
    decreases |m|
  {
    if |m| > 0 {
      assert m == [m[0]] + m[1..];
      if |b| > 0 && m[0] == b[0] && Interleaves(m[1..], b[1..], h) {
        InterleavesMultiset(m[1..], b[1..], h);
        assert b == [b[0]] + b[1..];
      } else {
        InterleavesMultiset(m[1..], b, h[1..]);
        assert h == [h[0]] + h[1..];
      }
    }
  }

  /** Every builtin and every helper is visited exactly as often as it occurs in its source. */
  lemma MergeMultiset(b: seq<Entry>, h: seq<Entry>)
    ensures multiset(Merge(b, h)) == multiset(b) + multiset(h)
    ensures |Merge(b, h)| == |b| + |h|
  {
    MergeInterleaves(b, h);
    InterleavesMultiset(Merge(b, h), b, h);
    assert |multiset(Merge(b, h))| == |multiset(b) + multiset(h)|;
  }

  /** On equal paths the builtin goes first. */
  lemma TieGoesToBuiltin(b: seq<Entry>, h: seq<Entry>, i: nat, j: nat)
    requires i < |b| && j < |h| && Key(h[j]) == Key(b[i])
    ensures MergeFrom(b, h, i, j)[0] == b[i]
  {
    StrLessIrreflexive(Key(b[i]));
  }

  /** Nothing later in s sorts strictly before something earlier. */
  predicate Sorted(s: seq<Entry>)
  {
    forall i, j :: 0 <= i < j < |s| ==> !StrLess(Key(s[j]), Key(s[i]))
  }

  /** "Not below" is transitive under strcmp order. */
  lemma NotLessTransitive(a: string, b: string, c: string)
    requires !StrLess(a, b) && !StrLess(b, c)
    ensures !StrLess(a, c)
  {
    if StrLess(a, c) {
      if a == b {
      } else {
        StrLessTotal(a, b);
        StrLessTransitive(b, a, c);
      }
    }
  }

  lemma {:induction false} MergeFromElements(b: seq<Entry>, h: seq<Entry>, i: nat, j: nat, x: Entry)
    requires i <= |b| && j <= |h| && x in MergeFrom(b, h, i, j)
    ensures x in b[i..] || x in h[j..]
  {
    MergeFromInterleaves(b, h, i, j);
    InterleavesMultiset(MergeFrom(b, h, i, j), b[i..], h[j..]);
    assert x in multiset(MergeFrom(b, h, i, j));
  }

  lemma {:induction false} MergeFromSorted(b: seq<Entry>, h: seq<Entry>, i: nat, j: nat)
    requires i <= |b| && j <= |h| && Sorted(b) && Sorted(h)
    ensures Sorted(MergeFrom(b, h, i, j))
    decreases |b| - i + |h| - j
  {
    if i == |b| && j == |h| {
    } else {
      var head, tail;
      if TakeHelper(b, h, i, j) {
        head, tail := h[j], MergeFrom(b, h, i, j + 1);
        MergeFromSorted(b, h, i, j + 1);
        forall x | x in tail
          ensures !StrLess(Key(x), Key(head))
        {
          MergeFromElements(b, h, i, j + 1, x);
          if x in h[j + 1..] {
            var k :| j + 1 <= k < |h| && h[k] == x;
            assert !StrLess(Key(h[k]), Key(h[j]));
          } else {
            var k :| i <= k < |b| && b[k] == x;
            if k == i {
              StrLessIrreflexive(Key(b[i]));
            } else {
              assert !StrLess(Key(b[k]), Key(b[i]));
            }
            if StrLess(Key(x), Key(head)) {
              StrLessTransitive(Key(x), Key(head), Key(b[i]));
            }
          }
        }
      } else {
        head, tail := b[i], MergeFrom(b, h, i + 1, j);
        MergeFromSorted(b, h, i + 1, j);
        forall x | x in tail
          ensures !StrLess(Key(x), Key(head))
        {
          MergeFromElements(b, h, i + 1, j, x);
          if x in b[i + 1..] {
            var k :| i + 1 <= k < |b| && b[k] == x;
          } else {
            var k :| j <= k < |h| && h[k] == x;
            if k > j {
              NotLessTransitive(Key(x), Key(h[j]), Key(head));
            }
          }
        }
      }
      SortedCons(head, tail);
    }
  }

  lemma SortedCons(head: Entry, tail: seq<Entry>)
    requires Sorted(tail) && forall x :: x in tail ==> !StrLess(Key(x), Key(head))
    ensures Sorted([head] + tail)
  {
    var s := [head] + tail;
    forall i, j | 0 <= i < j < |s|
      ensures !StrLess(Key(s[j]), Key(s[i]))
    {
      assert s[j] == tail[j - 1];
      if i > 0 {
        assert s[i] == tail[i - 1];
      } else {
        assert tail[j - 1] in tail;
      }
    }
  }

  /** A sequence whose neighbours are strictly increasing under strcmp is Sorted. */
  lemma StrictlyIncreasingSorted(s: seq<Entry>)
    requires forall i :: 0 <= i < |s| - 1 ==> StrLess(Key(s[i]), Key(s[i + 1]))
    ensures Sorted(s)
  {
    forall i, j | 0 <= i < j < |s|
      ensures !StrLess(Key(s[j]), Key(s[i]))
    {
      IncreasingFrom(s, i, j);
      StrLessAsymmetric(Key(s[i]), Key(s[j]));
    }
  }

  /** Entries whose keys are the strictly increasing k, in order, are Sorted. */
  lemma SortedByKeys(s: seq<Entry>, k: seq<string>)
    requires |s| == |k| && forall i :: 0 <= i < |s| ==> Key(s[i]) == k[i]
    requires forall i :: 0 <= i < |k| - 1 ==> StrLess(k[i], k[i + 1])
    ensures Sorted(s)
  {
    StrictlyIncreasingSorted(s);
  }

  lemma {:induction false} IncreasingFrom(s: seq<Entry>, i: nat, j: nat)
    requires forall i :: 0 <= i < |s| - 1 ==> StrLess(Key(s[i]), Key(s[i + 1]))
    requires i < j < |s|
    ensures StrLess(Key(s[i]), Key(s[j]))
    decreases j - i
  {
    if j > i + 1 {
      IncreasingFrom(s, i + 1, j);
      StrLessTransitive(Key(s[i]), Key(s[i + 1]), Key(s[j]));
    }
  }

  /**
   * When each source is already in display order (the builtins table is kept
   * alphabetised), the listing is in display order.
   */
  lemma MergeSorted(b: seq<Entry>, h: seq<Entry>)
    requires Sorted(b) && Sorted(h)
    ensures Sorted(Merge(b, h))
  {
    MergeFromSorted(b, h, 0, 0);
  }

  // ---------------------------------------------------------------------
  // The help listing

  /** printf's %20.20s: at most 20 characters, right-aligned in a field of 20. */
  function Field20(s: string): (r: string)
    ensures |r| == 20
    ensures |s| <= 20 ==> r[20 - |s|..] == s && forall k :: 0 <= k < 20 - |s| ==> r[k] == ' '
    ensures |s| > 20 ==> r == s[..20]
  {
    if |s| >= 20 then s[..20] else seq(20 - |s|, _ => ' ') + s
  }

  /** One line of the listing: "%20.20s   %s\n" of the joined path and the summary. */
  function ListLine(e: Entry): string
  {
    Field20(Key(e)) + "   " + e.summary + "\n"
  }

  /** The entries a listing shows: all of them, or those whose path starts with the topic, ignoring case. */
  predicate Selected(e: Entry, topic: Option<string>)
  {
    topic.None? || PrefixCI(topic.value, Key(e))
  }

  /** The lines a walk over m prints. */
  function ListingOf(m: seq<Entry>, topic: Option<string>): seq<string>
    decreases |m|
  {
    if |m| == 0 then []
    else (if Selected(m[0], topic) then [ListLine(m[0])] else []) + ListingOf(m[1..], topic)
  }

  /** The listing shows exactly the lines of the selected entries of m. */
  lemma {:induction false} ListingContains(m: seq<Entry>, topic: Option<string>, line: string)
    ensures line in ListingOf(m, topic) <==> exists e :: e in m && Selected(e, topic) && line == ListLine(e)
    decreases |m|
  {
    if |m| > 0 {
      var head := if Selected(m[0], topic) then [ListLine(m[0])] else [];
      var rest := ListingOf(m[1..], topic);
      assert ListingOf(m, topic) == head + rest;
      assert line in head + rest <==> line in head || line in rest;
      ListingContains(m[1..], topic, line);
      if line in head {
        assert m[0] in m;
      } else if line in rest {
        var e :| e in m[1..] && Selected(e, topic) && line == ListLine(e);
        assert e in m;
      }
    }
  }


  /** Without a topic, the listing is one line per entry, in walk order. */
  lemma {:induction false} ListingAll(m: seq<Entry>)
    ensures |ListingOf(m, None)| == |m|
    ensures forall k :: 0 <= k < |m| ==> ListingOf(m, None)[k] == ListLine(m[k])
    decreases |m|
  {
    if |m| > 0 {
      ListingAll(m[1..]);
      var rest := ListingOf(m[1..], None);
      assert ListingOf(m, None) == [ListLine(m[0])] + rest;
      forall k | 0 <= k < |m|
        ensures ListingOf(m, None)[k] == ListLine(m[k])
      {
        if k > 0 {
          assert ListingOf(m, None)[k] == rest[k - 1];
          assert m[1..][k - 1] == m[k];
        }
      }
    }
  }

  lemma {:induction false} ListingAppend(m: seq<Entry>, n: seq<Entry>, topic: Option<string>)
    ensures ListingOf(m + n, topic) == ListingOf(m, topic) + ListingOf(n, topic)
    decreases |m|
  {
    if |m| == 0 {
      assert m + n == n;
    } else {
      assert (m + n)[0] == m[0] && (m + n)[1..] == m[1..] + n;
      ListingAppend(m[1..], n, topic);
    }
  }

  // ---------------------------------------------------------------------
  // Completion

  /** cmda[x], or NULL past the last word (the array is NULL-padded) and before the first. */
  function WordAt(cmda: seq<string>, x: int): Option<string>
  {
    if 0 <= x < |cmda| then Some(cmda[x]) else None
  }

  /** The word position completion works on: the last typed word while it is still being typed, else the next one. */
  function CompletionPos(word: string, argc: nat): int
  {
    if |word| > 0 then argc - 1 else argc
  }

  /**
   * What the completion walk returns from the rest m of the merged order, when
   * n candidates have been counted so far. matchstr is the typed line joined,
   * argc its number of words, and state the number of candidates to skip.
   *
   * An entry is a candidate when matchstr starts its path (ignoring case);
   * once more than `state` candidates have been counted, a candidate's word at
   * CompletionPos is the answer. An entry with a generator whose whole path
   * starts matchstr hands the answer to that generator, even if it is
   * NULL.
   */
  function CompleteFrom(m: seq<Entry>, text: string, word: string, matchstr: string, argc: nat,
                        state: nat, n: nat): Option<string>
    decreases |m|
  {
    if |m| == 0 then None
    else
      var e := m[0];
      var pos := CompletionPos(word, argc);
      var n' := if PrefixCI(matchstr, Key(e)) then n + 1 else n;
      if PrefixCI(matchstr, Key(e)) && n' > state && WordAt(e.cmda, pos).Some? then WordAt(e.cmda, pos)
      else if e.generator.Some? && PrefixCI(Key(e), matchstr) then e.generator.value(text, word, pos, state)
      else CompleteFrom(m[1..], text, word, matchstr, argc, state, n')
  }

  /** One step of the completion walk, for the walk's loop: entry e, then the rest. */
  lemma CompleteCons(m: seq<Entry>, e: Entry, rest: seq<Entry>, text: string, word: string, matchstr: string,
                     argc: nat, state: nat, n: nat, n': nat, pos: int)
    requires m == [e] + rest && pos == CompletionPos(word, argc)
    requires n' == if PrefixCI(matchstr, Key(e)) then n + 1 else n
    ensures CompleteFrom(m, text, word, matchstr, argc, state, n) ==
      if PrefixCI(matchstr, Key(e)) && n' > state && WordAt(e.cmda, pos).Some? then WordAt(e.cmda, pos)
      else if e.generator.Some? && PrefixCI(Key(e), matchstr) then e.generator.value(text, word, pos, state)
      else CompleteFrom(rest, text, word, matchstr, argc, state, n')
  {
    assert m[0] == e && m[1..] == rest;
  }

  /**
   * No entry of m hands completion over to a generator: every entry that has
   * one has a path that does not start matchstr.
   */
  predicate NoHandOff(m: seq<Entry>, matchstr: string)
  {
    forall k :: 0 <= k < |m| && m[k].generator.Some? ==> !PrefixCI(Key(m[k]), matchstr)
  }

  /** The candidates of m in order: the entries whose path starts with matchstr. */
  function Candidates(m: seq<Entry>, matchstr: string): (r: seq<Entry>)
    ensures forall e :: e in r ==> e in m && PrefixCI(matchstr, Key(e))
    decreases |m|
  {
    if |m| == 0 then []
    else (if PrefixCI(matchstr, Key(m[0])) then [m[0]] else []) + Candidates(m[1..], matchstr)
  }

  /** The word at pos of the first entry of c that has one. */
  function FirstWord(c: seq<Entry>, pos: int): Option<string>
    decreases |c|
  {
    if |c| == 0 then None
    else if WordAt(c[0].cmda, pos).Some? then WordAt(c[0].cmda, pos)
    else FirstWord(c[1..], pos)
  }

  function Drop(c: seq<Entry>, d: nat): seq<Entry>
  {
    if d <= |c| then c[d..] else []
  }

  /** How many of the first `state` candidates are still to be skipped once n have been counted. */
  function Skip(state: nat, n: nat): nat
  {
    if n <= state then state - n else 0
  }

  /** The answer w when there is one, else r. */
  function OrElse(w: Option<string>, r: Option<string>): (x: Option<string>)
    ensures w.Some? ==> x == w
    ensures w.None? ==> x == r
  {
    if w.Some? then w else r
  }

  /**
   * Over a stretch pre that hands nothing over, the completion walk skips the
   * first `state` candidates and returns the word at the completion position of
   * the first remaining candidate that has one; failing that, it goes on with
   * the rest, the candidates of pre counted.
   */
  lemma {:induction false} CompleteAppend(pre: seq<Entry>, rest: seq<Entry>, text: string, word: string,
                                          matchstr: string, argc: nat, state: nat, n: nat)
    requires NoHandOff(pre, matchstr)
    ensures CompleteFrom(pre + rest, text, word, matchstr, argc, state, n) ==
      OrElse(FirstWord(Drop(Candidates(pre, matchstr), Skip(state, n)), CompletionPos(word, argc)),
             CompleteFrom(rest, text, word, matchstr, argc, state, n + |Candidates(pre, matchstr)|))
    decreases |pre|
  {
    var pos := CompletionPos(word, argc);
    var c := Candidates(pre, matchstr);
    if |pre| == 0 {
      assert pre + rest == rest && c == [];
    } else {
      var m := pre + rest;
      var e := pre[0];
      assert m == [e] + (pre[1..] + rest);
      assert NoHandOff(pre[1..], matchstr) by {
        forall k | 0 <= k < |pre[1..]| && pre[1..][k].generator.Some?
          ensures !PrefixCI(Key(pre[1..][k]), matchstr)
        {
          assert pre[1..][k] == pre[k + 1];
        }
      }
      assert !(e.generator.Some? && PrefixCI(Key(e), matchstr));
      var c' := Candidates(pre[1..], matchstr);
      var hit := PrefixCI(matchstr, Key(e));
      var n' := if hit then n + 1 else n;
      assert c == (if hit then [e] else []) + c';
      CompleteCons(m, e, pre[1..] + rest, text, word, matchstr, argc, state, n, n', pos);
      CompleteAppend(pre[1..], rest, text, word, matchstr, argc, state, n');
      if hit {
        CountedCandidate(e, c', c, state, n, pos);
      } else {
        assert c == c';
      }
    }
  }

  /**
   * The candidate step of CompleteAppend: once e is counted as candidate n + 1,
   * answering with its word when n + 1 passes state and otherwise going on is
   * taking the first word of the candidates from e on, `state` skipped.
   */
  lemma CountedCandidate(e: Entry, c': seq<Entry>, c: seq<Entry>, state: nat, n: nat, pos: int)
    requires c == [e] + c'
    ensures forall r :: (OrElse(FirstWord(Drop(c, Skip(state, n)), pos), r) ==
      if n + 1 > state && WordAt(e.cmda, pos).Some? then WordAt(e.cmda, pos)
      else OrElse(FirstWord(Drop(c', Skip(state, n + 1)), pos), r))
  {
    assert c[1..] == c';
    if n >= state {
      assert Drop(c, Skip(state, n)) == c && Drop(c', Skip(state, n + 1)) == c';
    } else {
      assert Drop(c, Skip(state, n)) == Drop(c', Skip(state, n + 1));
    }
  }

  /**
   * When nothing in m hands over to a generator, completion skips the first
   * `state` candidates and returns the word at the completion position of the
   * first remaining candidate that has one, or NULL.
   */
  lemma CompleteByCandidates(m: seq<Entry>, text: string, word: string, matchstr: string,
                             argc: nat, state: nat, n: nat)
    requires NoHandOff(m, matchstr)
    ensures CompleteFrom(m, text, word, matchstr, argc, state, n) ==
      FirstWord(Drop(Candidates(m, matchstr), Skip(state, n)), CompletionPos(word, argc))
  {
    var w := FirstWord(Drop(Candidates(m, matchstr), Skip(state, n)), CompletionPos(word, argc));
    assert CompleteFrom(m, text, word, matchstr, argc, state, n) ==
      OrElse(w, CompleteFrom([], text, word, matchstr, argc, state, n + |Candidates(m, matchstr)|)) by {
      assert m + [] == m;
      CompleteAppend(m, [], text, word, matchstr, argc, state, n);
    }
  }

  /**
   * The hand-off: when the walk reaches an entry e with a generator whose path
   * starts matchstr, no candidate before it has answered and e does not answer as
   * a candidate itself, completion is whatever e's generator returns for the
   * line, the word, the completion position and state.
   */
  lemma GeneratorHandOff(m: seq<Entry>, pre: seq<Entry>, e: Entry, post: seq<Entry>, text: string, word: string,
                         matchstr: string, argc: nat, state: nat, n: nat)
    requires m == pre + ([e] + post) && NoHandOff(pre, matchstr)
    requires e.generator.Some? && PrefixCI(Key(e), matchstr)
    requires FirstWord(Drop(Candidates(pre, matchstr), Skip(state, n)), CompletionPos(word, argc)).None?
    requires !(PrefixCI(matchstr, Key(e)) && n + |Candidates(pre, matchstr)| >= state &&
               WordAt(e.cmda, CompletionPos(word, argc)).Some?)
    ensures CompleteFrom(m, text, word, matchstr, argc, state, n) ==
      e.generator.value(text, word, CompletionPos(word, argc), state)
  {
    CompleteAppend(pre, [e] + post, text, word, matchstr, argc, state, n);
    HandOffAt(e, post, text, word, matchstr, argc, state, n + |Candidates(pre, matchstr)|);
  }

  /** GeneratorHandOff once the walk has reached e with n candidates counted. */
  lemma HandOffAt(e: Entry, post: seq<Entry>, text: string, word: string, matchstr: string,
                  argc: nat, state: nat, n: nat)
    requires e.generator.Some? && PrefixCI(Key(e), matchstr)
    requires !(PrefixCI(matchstr, Key(e)) && n >= state && WordAt(e.cmda, CompletionPos(word, argc)).Some?)
    ensures CompleteFrom([e] + post, text, word, matchstr, argc, state, n) ==
      e.generator.value(text, word, CompletionPos(word, argc), state)
  {
    var n' := if PrefixCI(matchstr, Key(e)) then n + 1 else n;
    CompleteCons([e] + post, e, post, text, word, matchstr, argc, state, n, n', CompletionPos(word, argc));
  }

  // ---------------------------------------------------------------------
  // The guard ast_cli_generator actually tests

  /**
   * ast_cli_generator tests `!e1->cmda` where help_workhorse tests
   * `!e1->cmda[0]`. cmda is an array inside the entry, so its address is never
   * NULL and the test is always false: with the builtins used up, e1 points at
   * the sentinel, whose path is empty, and the helper is taken only if its path
   * sorts below fullcmd1 (still holding the last builtin's path, `stale` here).
   */
  predicate TakeHelperAsWritten(b: seq<Entry>, h: seq<Entry>, i: nat, j: nat, stale: string)
  {
    j < |h| && StrLess(Key(h[j]), if i < |b| then Key(b[i]) else stale)
  }

  /**
   * With builtins "help" .. "unload" exhausted and a helper "zap" left, the
   * guard as written does not take the helper: the walk would use the
   * sentinel entry and step past the end of the builtins table.
   */
  lemma AsWrittenGuardStepsPastSentinel(b: seq<Entry>, h: seq<Entry>)
    requires |h| == 1 && h[0].cmda == ["zap"]
    ensures !TakeHelperAsWritten(b, h, |b|, 0, "unload")
    ensures TakeHelper(b, h, |b|, 0)
  {
    assert Key(h[0]) == "zap";
    assert "zap"[0] == 'z' && "unload"[0] == 'u';
  }

  /** The intended guard never leaves the two cursors: whatever it picks exists. */
  lemma TakeHelperInBounds(b: seq<Entry>, h: seq<Entry>, i: nat, j: nat)
    requires i <= |b| && j <= |h| && !(i == |b| && j == |h|)
    ensures TakeHelper(b, h, i, j) ==> j < |h|
    ensures !TakeHelper(b, h, i, j) ==> i < |b|
  {
  }
}

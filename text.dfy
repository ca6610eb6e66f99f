/**
 * The string operations the command line relies on, with the meaning the C
 * library gives them: case-insensitive equality (strcasecmp), case-sensitive
 * ordering (strcmp), truncated case-insensitive ordering (strncasecmp), and the
 * two ways of joining a word path into one string (join and join2 in cli.c).
 * Joined strings are unbounded here: the fixed 80-byte buffers are not modelled.
 */
module CliText {

  /** tolower() in the C locale: only 'A'..'Z' are changed. */
  function Lower(c: char): char
  {
    if 'A' <= c <= 'Z' then (c as int + 32) as char else c
  }

  /** strcasecmp(a, b) == 0 */
  predicate EqualCI(a: string, b: string)
  {
    |a| == |b| && forall i :: 0 <= i < |a| ==> Lower(a[i]) == Lower(b[i])
  }

  /** strncasecmp(p, s, strlen(p)) == 0: p is a case-insensitive prefix of s. */
  predicate PrefixCI(p: string, s: string)
  {
    |p| <= |s| && EqualCI(p, s[..|p|])
  }

  /** strcmp(a, b) < 0, comparing characters by their code. */
  predicate StrLess(a: string, b: string)
    decreases |a|
  {
    |b| > 0 && (|a| == 0 || a[0] < b[0] || (a[0] == b[0] && StrLess(a[1..], b[1..])))
  }

  /** strncasecmp(a, b, n) < 0 for n not beyond either string. */
  predicate NCaseLess(a: string, b: string, n: nat)
    requires n <= |a| && n <= |b|
    decreases n
  {
    n > 0 &&
    (Lower(a[0]) < Lower(b[0]) ||
     (Lower(a[0]) == Lower(b[0]) && NCaseLess(a[1..], b[1..], n - 1)))
  }

  /**
   * The comparison ast_cli_register uses to find the insertion point:
   * strncasecmp limited to the length of the shorter string is negative.
   */
  predicate TruncatedLess(a: string, b: string)
  {
    NCaseLess(a, b, if |a| < |b| then |a| else |b|)
  }

  /** Word path w starts with word path p, word by word, ignoring case. */
  predicate WordPrefixCI(p: seq<string>, w: seq<string>)
  {
    |p| <= |w| && forall i :: 0 <= i < |p| ==> EqualCI(p[i], w[i])
  }

  /** Two word paths are equal, word by word, ignoring case. */
  predicate WordsEqualCI(a: seq<string>, b: seq<string>)
  {
    |a| == |b| && WordPrefixCI(a, b)
  }

  /** The words separated by single spaces, as join() builds them. */
  function Joined(w: seq<string>): string
    decreases |w|
  {
    if |w| == 0 then ""
    else if |w| == 1 then w[0]
    else Joined(w[..|w| - 1]) + " " + w[|w| - 1]
  }

  /** The words concatenated with no separator, as join2() builds them. */
  function Joined2(w: seq<string>): string
    decreases |w|
  {
    if |w| == 0 then "" else Joined2(w[..|w| - 1]) + w[|w| - 1]
  }

  /** join(): appends a space before every word but the first, then the word. */
  method Join(w: seq<string>) returns (s: string)
    ensures s == Joined(w)
  {
    s := "";
    var x := 0;
    while x < |w|
      invariant 0 <= x <= |w|
      invariant s == Joined(w[..x])
    {
      if x > 0 {
        s := s + " ";
      }
      s := s + w[x];
      assert w[..x + 1][..x] == w[..x];
      x := x + 1;
    }
    assert w[..|w|] == w;
  }

  /** join2(): appends every word with no separator. */
  method Join2(w: seq<string>) returns (s: string)
    ensures s == Joined2(w)
  {
    s := "";
    var x := 0;
    while x < |w|
      invariant 0 <= x <= |w|
      invariant s == Joined2(w[..x])
    {
      s := s + w[x];
      assert w[..x + 1][..x] == w[..x];
      x := x + 1;
    }
    assert w[..|w|] == w;
  }

  // ---------------------------------------------------------------------
  // Properties of the comparisons

  lemma EqualCIConcat(a: string, b: string, c: string, d: string)
    requires EqualCI(a, b) && EqualCI(c, d)
    ensures EqualCI(a + c, b + d)
  {
    forall i | 0 <= i < |a + c|
      ensures Lower((a + c)[i]) == Lower((b + d)[i])
    {
      if i < |a| {
        assert (a + c)[i] == a[i] && (b + d)[i] == b[i];
      } else {
        assert (a + c)[i] == c[i - |a|] && (b + d)[i] == d[i - |a|];
      }
    }
  }

  /** strcmp order: no string is below itself. */
  lemma {:induction false} StrLessIrreflexive(a: string)
    ensures !StrLess(a, a)
    decreases |a|
  {
    if |a| > 0 {
      StrLessIrreflexive(a[1..]);
    }
  }

  /** strcmp order is transitive. */
  lemma {:induction false} StrLessTransitive(a: string, b: string, c: string)
    requires StrLess(a, b) && StrLess(b, c)
    ensures StrLess(a, c)
    decreases |a|
  {
    if |a| > 0 && a[0] == b[0] && b[0] == c[0] {
      StrLessTransitive(a[1..], b[1..], c[1..]);
    }
  }

  /** strcmp order is total: two different strings are ordered one way or the other. */
  lemma {:induction false} StrLessTotal(a: string, b: string)
    requires a != b
    ensures StrLess(a, b) || StrLess(b, a)
    decreases |a|
  {
    if |a| > 0 && |b| > 0 && a[0] == b[0] {
      assert a == [a[0]] + a[1..] && b == [b[0]] + b[1..];
      StrLessTotal(a[1..], b[1..]);
    }
  }

  /** strcmp(a, b) < 0 when the strings agree before position k and a ends there or has the smaller character. */
  lemma {:induction false} StrLessAt(a: string, b: string, k: nat)
    requires k <= |a| && k < |b| && forall i :: 0 <= i < k ==> a[i] == b[i]
    requires k == |a| || a[k] < b[k]
    ensures StrLess(a, b)
    decreases k
  {
    if k > 0 {
      assert a[0] == b[0];
      StrLessAt(a[1..], b[1..], k - 1);
    }
  }

  /** strcmp order is asymmetric. */
  lemma StrLessAsymmetric(a: string, b: string)
    requires StrLess(a, b)
    ensures !StrLess(b, a)
  {
    if StrLess(b, a) {
      StrLessTransitive(a, b, a);
      StrLessIrreflexive(a);
    }
  }

  /**
   * The truncated comparison cannot order two strings one of which starts the
   * other (ignoring case): strncasecmp over the shorter length sees no
   * difference.
   */
  lemma {:induction false} TruncatedLessPrefix(a: string, b: string)
    requires PrefixCI(a, b) || PrefixCI(b, a)
    ensures !TruncatedLess(a, b) && !TruncatedLess(b, a)
  {
    var n := if |a| < |b| then |a| else |b|;
    NCaseLessEqual(a, b, n);
    NCaseLessEqual(b, a, n);
  }

  lemma {:induction false} NCaseLessEqual(a: string, b: string, n: nat)
    requires n <= |a| && n <= |b|
    requires forall i :: 0 <= i < n ==> Lower(a[i]) == Lower(b[i])
    ensures !NCaseLess(a, b, n)
    decreases n
  {
    if n > 0 {
      assert Lower(a[0]) == Lower(b[0]);
      forall i | 0 <= i < n - 1
        ensures Lower(a[1..][i]) == Lower(b[1..][i])
      {
        assert a[1..][i] == a[i + 1] && b[1..][i] == b[i + 1];
      }
      NCaseLessEqual(a[1..], b[1..], n - 1);
    }
  }

  // ---------------------------------------------------------------------
  // Properties of the joined paths

  /** Joining a prefix of a word path gives a prefix of the joined path. */
  lemma {:induction false} JoinedPrefix(w: seq<string>, k: nat)
    requires k <= |w|
    ensures Joined(w[..k]) <= Joined(w)
    decreases |w| - k
  {
    if k < |w| {
      var v := w[..|w| - 1];
      assert v[..k] == w[..k];
      JoinedPrefix(v, k);
      assert Joined(v) <= Joined(w);
    } else {
      assert w[..k] == w;
    }
  }

  /** Joining word paths that are equal ignoring case gives strings equal ignoring case. */
  lemma {:induction false} JoinedEqualCI(a: seq<string>, b: seq<string>)
    requires WordsEqualCI(a, b)
    ensures EqualCI(Joined(a), Joined(b))
    decreases |a|
  {
    if |a| >= 2 {
      var n := |a|;
      JoinedEqualCI(a[..n - 1], b[..n - 1]);
      EqualCIConcat(Joined(a[..n - 1]), Joined(b[..n - 1]), " ", " ");
      EqualCIConcat(Joined(a[..n - 1]) + " ", Joined(b[..n - 1]) + " ", a[n - 1], b[n - 1]);
    }
  }

  /**
   * A word-by-word prefix (the relation find_cli(..., -1) tests) is also a
   * string prefix of the joined paths (the relation completion and the help
   * filter test). The converse fails: see JoinedPrefixNotWordPrefix.
   */
  lemma JoinedPrefixCI(p: seq<string>, w: seq<string>)
    requires WordPrefixCI(p, w)
    ensures PrefixCI(Joined(p), Joined(w))
  {
    var k := |p|;
    JoinedEqualCI(p, w[..k]);
    JoinedPrefix(w, k);
    assert Joined(w)[..|Joined(p)|] == Joined(w[..k]);
  }

  /** "show channel" is a string prefix of "show channels" without being a word prefix. */
  lemma JoinedPrefixNotWordPrefix()
    ensures PrefixCI(Joined(["show", "channel"]), Joined(["show", "channels"]))
    ensures !WordPrefixCI(["show", "channel"], ["show", "channels"])
  {
    assert Joined(["show", "channel"]) == "show channel";
    assert Joined(["show", "channels"]) == "show channels";
    assert Joined(["show", "channels"])[..12] == "show channel";
  }

  /** The string with every space removed. */
  function Unspaced(s: string): string
    decreases |s|
  {
    if |s| == 0 then "" else Unspaced(s[..|s| - 1]) + (if s[|s| - 1] == ' ' then "" else [s[|s| - 1]])
  }

  lemma {:induction false} UnspacedConcat(a: string, b: string)
    ensures Unspaced(a + b) == Unspaced(a) + Unspaced(b)
    decreases |b|
  {
    if |b| == 0 {
      assert a + b == a;
    } else {
      assert (a + b)[..|a + b| - 1] == a + b[..|b| - 1];
      UnspacedConcat(a, b[..|b| - 1]);
    }
  }

  /**
   * join2 is join without the separators: for words that hold no space, the
   * key ast_cli_register sorts by is the displayed path with its spaces removed.
   */
  lemma {:induction false} Joined2IsUnspacedJoined(w: seq<string>)
    requires forall i :: 0 <= i < |w| ==> ' ' !in w[i]
    ensures Joined2(w) == Unspaced(Joined(w))
    decreases |w|
  {
    if |w| > 0 {
      var n := |w|;
      var front := w[..n - 1];
      assert forall i :: 0 <= i < |front| ==> front[i] == w[i];
      Joined2IsUnspacedJoined(front);
      if n == 1 {
        UnspacedNoSpace(w[0]);
      } else {
        UnspacedStep(Joined(front), w[n - 1]);
      }
    }
  }

  /** Appending a space and a spaceless word appends just the word to the unspaced string. */
  lemma UnspacedStep(a: string, last: string)
    requires ' ' !in last
    ensures Unspaced(a + " " + last) == Unspaced(a) + last
  {
    var js := a + " ";
    UnspacedConcat(js, last);
    UnspacedConcat(a, " ");
    UnspacedSpace();
    UnspacedNoSpace(last);
  }

  lemma UnspacedSpace()
    ensures Unspaced(" ") == ""
  {
    assert " "[..0] == "";
  }

  lemma {:induction false} UnspacedNoSpace(s: string)
    requires ' ' !in s
    ensures Unspaced(s) == s
    decreases |s|
  {
    if |s| > 0 {
      assert s == s[..|s| - 1] + [s[|s| - 1]];
      UnspacedNoSpace(s[..|s| - 1]);
    }
  }
}

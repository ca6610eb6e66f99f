/**
 * Command entries and the lookup of find_cli (cli.c). An entry is a word path
 * (cmda), a handler, a one-line summary, a usage text and an optional
 * completion generator. Entries are objects: the registry links and unlinks
 * them by identity.
 *
 * find_cli has three matching modes, chosen by the sign of `exact`; Matches
 * states each one as a relation between word paths, and MatchEntry is the
 * inner loop of find_cli, proved to compute it.
 */
module Matching {
  import opened Wrappers
  import opened CliText

  /** AST_MAX_CMD_LEN: the slots of cmda, one of them the NULL terminator. */
  const MaxCmdLen: nat := 16

  /** The handler result codes RESULT_SUCCESS, RESULT_SHOWUSAGE, RESULT_FAILURE. */
  const ResultSuccess: int := 0
  const ResultShowUsage: int := 1
  const ResultFailure: int := 2

  /** What running a command produces: a result code and the lines it printed. */
  datatype Reply = Reply(code: int, lines: seq<string>)

  /**
   * A completion generator generator(line, word, pos, state): the n-th
   * completion, or NULL. The generators of the builtins look at the channel
   * list and the file system; here they are arbitrary function values.
   */
  type Generator = (string, string, int, nat) -> Option<string>

  /**
   * The handler of a command. handle_help belongs to the registry (it lists
   * the registry itself); every other handler is foreign code that receives
   * the argument vector and prints and returns whatever it likes.
   */
  datatype Handler = HelpHandler | Foreign(run: seq<string> -> Reply)

  /** struct ast_cli_entry, without the `next` link (the list lives in the registry). */
  class Entry {
    const cmda: seq<string>
    const handler: Handler
    const summary: string
    const usage: string
    const generator: Option<Generator>

    constructor (cmda: seq<string>, handler: Handler, summary: string, usage: string, generator: Option<Generator>)
      ensures this.cmda == cmda && this.handler == handler && this.summary == summary
      ensures this.usage == usage && this.generator == generator
    {
      this.cmda := cmda;
      this.handler := handler;
      this.summary := summary;
      this.usage := usage;
      this.generator := generator;
    }
  }

  /**
   * Entry path cmda matches the typed words cmds in mode `exact`:
   *   exact == 0: cmda is a word prefix of cmds (trailing arguments allowed);
   *   exact > 0:  the two paths are equal;
   *   exact < 0:  cmds is a word prefix of cmda (an abbreviation of it).
   * Words are compared with strcasecmp.
   */
  predicate Matches(cmda: seq<string>, cmds: seq<string>, exact: int)
  {
    if exact == 0 then WordPrefixCI(cmda, cmds)
    else if exact > 0 then WordsEqualCI(cmda, cmds)
    else WordPrefixCI(cmds, cmda)
  }

  /**
   * The inner loop of find_cli for one candidate. Reading cmda[y] past the last
   * word yields NULL: C's cmda array is NULL-padded.
   */
  method MatchEntry(cmda: seq<string>, cmds: seq<string>, exact: int) returns (hit: bool)
    ensures hit == Matches(cmda, cmds, exact)
  {
    hit := true;
    var y := 0;
    while hit && y < |cmds|
      invariant 0 <= y <= |cmds|
      invariant hit ==> y <= |cmda| && forall k :: 0 <= k < y ==> EqualCI(cmda[k], cmds[k])
      invariant !hit ==> 0 < y && (y - 1 >= |cmda| || !EqualCI(cmda[y - 1], cmds[y - 1]))
      invariant !hit && exact == 0 ==> y - 1 < |cmda|
    {
      if y >= |cmda| && exact == 0 {
        break;
      }
      if y >= |cmda| || !EqualCI(cmda[y], cmds[y]) {
        hit := false;
      }
      if !hit {
        assert !(y < |cmda| && EqualCI(cmda[y], cmds[y]));
      }
      y := y + 1;
    }
    if exact > -1 && y < |cmda| {
      hit := false;
    }
    if exact < 0 {
      // strcasecmp is symmetric in its two words
      if hit {
        forall i | 0 <= i < |cmds|
          ensures EqualCI(cmds[i], cmda[i])
        {
          assert EqualCI(cmda[i], cmds[i]);
        }
      } else if y - 1 < |cmda| {
        assert !EqualCI(cmds[y - 1], cmda[y - 1]);
      }
    }
  }

  /** The position of the first entry of es that matches, or |es| if none does. */
  function FirstMatch(es: seq<Entry>, cmds: seq<string>, exact: int): (k: nat)
    ensures k <= |es|
    ensures forall j :: 0 <= j < k ==> !Matches(es[j].cmda, cmds, exact)
    ensures k < |es| ==> Matches(es[k].cmda, cmds, exact)
    decreases |es|
  {
    if |es| == 0 then 0
    else if Matches(es[0].cmda, cmds, exact) then 0
    else 1 + FirstMatch(es[1..], cmds, exact)
  }

  /** What find_cli returns when es is the builtins followed by the helpers: the first match, or NULL. */
  function Found(es: seq<Entry>, cmds: seq<string>, exact: int): (r: Entry?)
  {
    var k := FirstMatch(es, cmds, exact);
    if k < |es| then es[k] else null
  }

  /** Found is NULL exactly when no entry matches, and otherwise a matching entry. */
  lemma FoundSpec(es: seq<Entry>, cmds: seq<string>, exact: int)
    ensures Found(es, cmds, exact) == null <==> forall j :: 0 <= j < |es| ==> !Matches(es[j].cmda, cmds, exact)
    ensures Found(es, cmds, exact) != null ==>
      Found(es, cmds, exact) in es && Matches(Found(es, cmds, exact).cmda, cmds, exact)
  {
  }

  /** Searching the builtins before the helpers: a builtin match hides every helper. */
  lemma {:induction false} FoundConcat(b: seq<Entry>, h: seq<Entry>, cmds: seq<string>, exact: int)
    ensures FirstMatch(b + h, cmds, exact) ==
      (if FirstMatch(b, cmds, exact) < |b| then FirstMatch(b, cmds, exact) else |b| + FirstMatch(h, cmds, exact))
    decreases |b|
  {
    if |b| > 0 {
      assert (b + h)[0] == b[0] && (b + h)[1..] == b[1..] + h;
      FoundConcat(b[1..], h, cmds, exact);
    } else {
      assert b + h == h;
    }
  }

  /** A path matches itself in every mode. */
  lemma MatchesSelf(w: seq<string>, exact: int)
    ensures Matches(w, w, exact)
  {
    forall i | 0 <= i < |w|
      ensures EqualCI(w[i], w[i])
    {
    }
  }

  /**
   * The modes nest: an exact match is a match in both inexact modes, and a
   * match in both inexact modes is an exact match.
   */
  lemma ModesNest(cmda: seq<string>, cmds: seq<string>)
    ensures Matches(cmda, cmds, 1) <==> Matches(cmda, cmds, 0) && Matches(cmda, cmds, -1)
  {
    if Matches(cmda, cmds, 1) {
      assert WordPrefixCI(cmds, cmda) by {
        forall i | 0 <= i < |cmds|
          ensures EqualCI(cmds[i], cmda[i])
        {
          assert EqualCI(cmda[i], cmds[i]);
        }
      }
    }
  }
}

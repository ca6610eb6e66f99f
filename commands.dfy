/**
 * The command registry of cli.c: the fixed builtins table, the helpers list
 * that modules register into, and the operations over both, namely lookup
 * (find_cli), registration, help, completion and running a console line.
 *
 * The first half states what each operation computes, as functions of the two
 * sources b (builtins) and h (helpers); the class Cli.Registry holds the
 * state and implements the operations with the loops of the C code, each
 * proved against those functions.
 */
module Commands {
  import opened Wrappers
  import opened CliText
  import opened Tokenizer
  import opened Matching
  import opened Listing

  // ---------------------------------------------------------------------
  // The registry invariant

  /** The word paths of the entries of es, in order. */
  function Paths(es: seq<Entry>): (r: seq<seq<string>>)
    ensures |r| == |es| && forall k :: 0 <= k < |es| ==> r[k] == es[k].cmda
  {
    seq(|es|, k requires 0 <= k < |es| => es[k].cmda)
  }

  /** The paths of the builtins table, in table order. */
  const BuiltinPaths: seq<seq<string>> :=
    [["help"], ["load"], ["show", "channel"], ["show", "channels"], ["show", "modules"], ["unload"]]

  /** No entry appears twice: a linked list cannot hold a node twice. */
  predicate NoDuplicates(s: seq<Entry>)
  {
    forall x :: x in s ==> multiset(s)[x] == 1
  }

  /**
   * What holds of the builtins b and helpers h between any two operations:
   *  - there is at least one builtin;
   *  - every path has at least one word and fits in cmda with its terminator;
   *  - no entry is listed twice;
   *  - no two entries have the same path (ignoring case): register refuses those;
   *  - no helper's path is a word prefix of a builtin's: the builtins were there first.
   */
  predicate Consistent(b: seq<Entry>, h: seq<Entry>)
  {
    |b| > 0 &&
    NoDuplicates(b + h) &&
    (forall x :: x in b + h ==> 0 < |x.cmda| < MaxCmdLen) &&
    (forall x, y :: x in b + h && y in b + h && x != y ==> !WordsEqualCI(x.cmda, y.cmda)) &&
    (forall x, y :: x in h && y in b ==> !WordPrefixCI(x.cmda, y.cmda))
  }

  /** Every path fits in the AST_MAX_CMD_LEN slots of cmda, with its NULL terminator. */
  predicate PathsFit(es: seq<Entry>)
  {
    forall k :: 0 <= k < |es| ==> |es[k].cmda| < MaxCmdLen
  }

  lemma ConsistentPathsFit(b: seq<Entry>, h: seq<Entry>)
    requires Consistent(b, h)
    ensures PathsFit(b + h)
  {
    forall k | 0 <= k < |b + h|
      ensures |(b + h)[k].cmda| < MaxCmdLen
    {
      assert (b + h)[k] in b + h;
    }
  }

  // ---------------------------------------------------------------------
  // ast_cli_register and ast_cli_unregister

  /**
   * Register refuses an entry whose path find_cli(e->cmda, -1) finds: its path
   * equals or abbreviates, word by word, the path of an entry already there.
   */
  predicate Refused(b: seq<Entry>, h: seq<Entry>, e: Entry)
  {
    Found(b + h, e.cmda, -1) != null
  }

  lemma RefusedIff(b: seq<Entry>, h: seq<Entry>, e: Entry)
    ensures Refused(b, h, e) <==> exists x :: x in b + h && WordPrefixCI(e.cmda, x.cmda)
  {
    FoundSpec(b + h, e.cmda, -1);
    if exists x :: x in b + h && WordPrefixCI(e.cmda, x.cmda) {
      var x :| x in b + h && WordPrefixCI(e.cmda, x.cmda);
      var k :| 0 <= k < |b + h| && (b + h)[k] == x;
      assert Matches((b + h)[k].cmda, e.cmda, -1);
    }
  }

  /**
   * The insertion point: the first helper whose join2 path the new one sorts
   * below under strncasecmp truncated to the shorter length, or the end.
   */
  function InsertAt(h: seq<Entry>, key: string): (k: nat)
    ensures k <= |h|
    ensures forall j :: 0 <= j < k ==> !TruncatedLess(key, Joined2(h[j].cmda))
    ensures k < |h| ==> TruncatedLess(key, Joined2(h[k].cmda))
    decreases |h|
  {
    if |h| == 0 then 0
    else if TruncatedLess(key, Joined2(h[0].cmda)) then 0
    else 1 + InsertAt(h[1..], key)
  }

  /** The helpers list after e is linked in at its insertion point. */
  function Inserted(h: seq<Entry>, e: Entry): seq<Entry>
  {
    var k := InsertAt(h, Joined2(e.cmda));
    h[..k] + [e] + h[k..]
  }

  /** The position of the first node that is e itself, or |h|. */
  function IndexOf(h: seq<Entry>, e: Entry): (k: nat)
    ensures k <= |h| && (k < |h| <==> e in h)
    ensures k < |h| ==> h[k] == e
    ensures forall j :: 0 <= j < k ==> h[j] != e
    decreases |h|
  {
    if |h| == 0 then 0 else if h[0] == e then 0 else 1 + IndexOf(h[1..], e)
  }

  /** The helpers list after the node e is unlinked; unchanged if e is not in it. */
  function Removed(h: seq<Entry>, e: Entry): seq<Entry>
  {
    var k := IndexOf(h, e);
    if k < |h| then h[..k] + h[k + 1..] else h
  }

  /** Registration adds e once and keeps every other entry, in its order, around it. */
  lemma InsertedSpec(h: seq<Entry>, e: Entry)
    ensures multiset(Inserted(h, e)) == multiset(h) + multiset{e}
    ensures Inserted(h, e)[InsertAt(h, Joined2(e.cmda))] == e
    ensures |Inserted(h, e)| == |h| + 1
  {
    var k := InsertAt(h, Joined2(e.cmda));
    assert h == h[..k] + h[k..];
  }

  /** Unregistering removes one occurrence of e, and nothing when e is absent. */
  lemma RemovedSpec(h: seq<Entry>, e: Entry)
    ensures multiset(Removed(h, e)) == multiset(h) - multiset{e}
    ensures e !in h ==> Removed(h, e) == h
  {
    var k := IndexOf(h, e);
    if k < |h| {
      assert h[k] == e && Removed(h, e) == h[..k] + h[k + 1..];
      MultisetRemoveAt(h, k);
    } else {
      assert Removed(h, e) == h;
      assert e !in multiset(h);
    }
  }

  lemma MultisetRemoveAt(h: seq<Entry>, k: nat)
    requires k < |h|
    ensures multiset(h[..k] + h[k + 1..]) == multiset(h) - multiset{h[k]}
  {
    assert h == h[..k] + [h[k]] + h[k + 1..];
  }

  /** Unregistering what was just registered restores the helpers list. */
  lemma RegisterUnregister(h: seq<Entry>, e: Entry)
    requires e !in h
    ensures Removed(Inserted(h, e), e) == h
  {
    var k := InsertAt(h, Joined2(e.cmda));
    var h' := Inserted(h, e);
    assert h'[k] == e;
    assert forall j :: 0 <= j < k ==> h'[j] == h[j];
    assert forall j :: 0 <= j < k ==> h'[j] != e;
    assert IndexOf(h', e) == k;
    assert h'[..k] == h[..k] && h'[k + 1..] == h[k..];
    assert h[..k] + h[k..] == h;
  }

  /**
   * The helpers list is kept in the truncated order only up to ties: a new path
   * that starts an existing one, or that an existing one starts, never goes
   * before it. So "sh" registered after "show" stays behind it.
   */
  lemma InsertAfterPrefix(h: seq<Entry>, e: Entry, j: nat)
    requires j < |h|
    requires PrefixCI(Joined2(e.cmda), Joined2(h[j].cmda)) || PrefixCI(Joined2(h[j].cmda), Joined2(e.cmda))
    ensures InsertAt(h, Joined2(e.cmda)) != j
  {
    TruncatedLessPrefix(Joined2(e.cmda), Joined2(h[j].cmda));
  }

  lemma MultisetIn(s: seq<Entry>, x: Entry)
    ensures x in s <==> x in multiset(s)
  {
  }

  /** A registration that is not refused keeps the registry consistent, and e is then listed exactly once. */
  lemma RegisterKeepsConsistent(b: seq<Entry>, h: seq<Entry>, e: Entry)
    requires Consistent(b, h) && !Refused(b, h, e) && |e.cmda| < MaxCmdLen
    ensures Consistent(b, Inserted(h, e))
    ensures multiset(b + Inserted(h, e))[e] == 1
  {
    InsertedSpec(h, e);
    RefusedIff(b, h, e);
    assert b[0] in b + h;
    assert !WordPrefixCI(e.cmda, b[0].cmda);
    AddKeepsConsistent(b, h, Inserted(h, e), e);
  }

  /** Adding to the helpers an entry whose path is no word prefix of a listed one keeps the registry consistent. */
  lemma AddKeepsConsistent(b: seq<Entry>, h: seq<Entry>, h': seq<Entry>, e: Entry)
    requires Consistent(b, h) && 0 < |e.cmda| < MaxCmdLen
    requires forall x :: x in b + h ==> !WordPrefixCI(e.cmda, x.cmda)
    requires multiset(h') == multiset(h) + multiset{e}
    ensures Consistent(b, h')
    ensures multiset(b + h')[e] == 1
  {
    MatchesSelf(e.cmda, -1);
    assert e !in b + h;
    InsertMembers(b, h, h', e);
    InsertDistinct(b + h, b + h', e);
    forall x, y | x in h' && y in b
      ensures !WordPrefixCI(x.cmda, y.cmda)
    {
      if x == e {
        assert y in b + h;
      }
    }
  }

  /** Adding e to es keeps the paths pairwise different when e's path is no word prefix of a listed one. */
  lemma InsertDistinct(es: seq<Entry>, es': seq<Entry>, e: Entry)
    requires forall x :: x in es' <==> x == e || x in es
    requires forall x, y :: x in es && y in es && x != y ==> !WordsEqualCI(x.cmda, y.cmda)
    requires forall x :: x in es ==> !WordPrefixCI(e.cmda, x.cmda)
    ensures forall x, y :: x in es' && y in es' && x != y ==> !WordsEqualCI(x.cmda, y.cmda)
  {
    forall x, y | x in es' && y in es' && x != y
      ensures !WordsEqualCI(x.cmda, y.cmda)
    {
      if y == e && WordsEqualCI(x.cmda, y.cmda) {
        WordsEqualSymmetric(y.cmda, x.cmda);
      }
    }
  }

  /** Equal paths are word prefixes of each other. */
  lemma WordsEqualSymmetric(u: seq<string>, v: seq<string>)
    requires WordsEqualCI(v, u)
    ensures WordPrefixCI(u, v)
  {
    forall i | 0 <= i < |u|
      ensures EqualCI(u[i], v[i])
    {
      assert EqualCI(v[i], u[i]);
    }
  }

  /** Adding e, which is not yet listed, to the helpers: who is listed, and how often. */
  lemma InsertMembers(b: seq<Entry>, h: seq<Entry>, h': seq<Entry>, e: Entry)
    requires NoDuplicates(b + h) && e !in b + h
    requires multiset(h') == multiset(h) + multiset{e}
    ensures forall x :: x in h' <==> x == e || x in h
    ensures forall x :: x in b + h' <==> x == e || x in b + h
    ensures NoDuplicates(b + h') && multiset(b + h')[e] == 1
  {
    assert multiset(b + h') == multiset(b + h) + multiset{e};
    forall x
      ensures x in h' <==> x == e || x in h
      ensures x in b + h' <==> x == e || x in b + h
    {
      MultisetIn(h', x);
      MultisetIn(h, x);
      MultisetIn(b + h', x);
      MultisetIn(b + h, x);
    }
    forall x | x in b + h'
      ensures multiset(b + h')[x] == 1
    {
      MultisetIn(b + h, e);
      MultisetIn(b + h, x);
    }
  }

  /** Dropping helpers keeps the registry consistent. */
  lemma ConsistentShrink(b: seq<Entry>, h: seq<Entry>, h': seq<Entry>)
    requires Consistent(b, h) && multiset(h') <= multiset(h)
    ensures Consistent(b, h')
  {
    assert multiset(b + h') <= multiset(b + h);
    forall x | x in h'
      ensures x in h
    {
      MultisetIn(h', x);
      MultisetIn(h, x);
    }
    forall x | x in b + h'
      ensures x in b + h && multiset(b + h')[x] == 1
    {
      MultisetIn(b + h', x);
      MultisetIn(b + h, x);
    }
  }

  /** Unregistering keeps the registry consistent. */
  lemma UnregisterKeepsConsistent(b: seq<Entry>, h: seq<Entry>, e: Entry)
    requires Consistent(b, h)
    ensures Consistent(b, Removed(h, e))
  {
    RemovedSpec(h, e);
    ConsistentShrink(b, h, Removed(h, e));
  }

  /**
   * In a consistent registry every entry is what find_cli(path, 1) finds for
   * its own path: a registered path always resolves to its own entry.
   */
  lemma RegisteredIsFound(b: seq<Entry>, h: seq<Entry>, e: Entry)
    requires Consistent(b, h) && e in b + h
    ensures Found(b + h, e.cmda, 1) == e
  {
    MatchesSelf(e.cmda, 1);
    FoundSpec(b + h, e.cmda, 1);
    var f := Found(b + h, e.cmda, 1);
    assert f != null by {
      var k :| 0 <= k < |b + h| && (b + h)[k] == e;
    }
  }

  // ---------------------------------------------------------------------
  // find_best: the suggestion printed for an unknown command

  /**
   * The number of words find_best keeps, continuing from x words: it adds
   * words one at a time and stops after the first one whose addition leaves
   * the typed words abbreviating no entry.
   */
  function BestFrom(es: seq<Entry>, argv: seq<string>, x: nat): (r: nat)
    requires x < |argv|
    ensures x < r <= |argv|
    decreases |argv| - x
  {
    if Found(es, argv[..x + 1], -1) == null then x + 1
    else if x + 1 == |argv| then |argv|
    else BestFrom(es, argv, x + 1)
  }

  /**
   * What find_best keeps: every longer prefix it passed abbreviates some path,
   * and the last word it kept (unless it ran out of words) made the prefix
   * abbreviate nothing.
   */
  lemma {:induction false} BestFromSpec(es: seq<Entry>, argv: seq<string>, x: nat)
    requires x < |argv|
    ensures forall j :: x < j < BestFrom(es, argv, x) ==> Found(es, argv[..j], -1) != null
    ensures BestFrom(es, argv, x) < |argv| ==> Found(es, argv[..BestFrom(es, argv, x)], -1) == null
    decreases |argv| - x
  {
    if Found(es, argv[..x + 1], -1) != null && x + 1 < |argv| {
      BestFromSpec(es, argv, x + 1);
    }
  }

  /** The suggestion: argv joined up to and including the first word that matches nothing. */
  function Suggestion(es: seq<Entry>, argv: seq<string>): string
  {
    if |argv| == 0 then "" else Joined(argv[..BestFrom(es, argv, 0)])
  }

  /** BestFrom is the first count whose prefix abbreviates nothing, or all of argv. */
  lemma BestFromIs(es: seq<Entry>, argv: seq<string>, r: nat)
    requires 0 < r <= |argv|
    requires forall j :: 0 < j < r ==> Found(es, argv[..j], -1) != null
    requires r < |argv| ==> Found(es, argv[..r], -1) == null
    ensures BestFrom(es, argv, 0) == r
  {
    BestFromSpec(es, argv, 0);
  }

  /**
   * When a line matched nothing in mode 0, a prefix of it that abbreviates
   * some path is shorter than that path, so it has fewer than
   * AST_MAX_CMD_LEN - 1 words.
   */
  lemma AbbreviationFits(es: seq<Entry>, argv: seq<string>, x: nat)
    requires PathsFit(es) && Found(es, argv, 0) == null
    requires 0 < x <= |argv| && Found(es, argv[..x], -1) != null
    ensures x < MaxCmdLen - 1
  {
    FoundSpec(es, argv, 0);
    FoundSpec(es, argv[..x], -1);
    var f := Found(es, argv[..x], -1);
    forall i | 0 <= i < x
      ensures EqualCI(f.cmda[i], argv[i])
    {
      assert EqualCI(argv[..x][i], f.cmda[i]);
    }
  }

  /**
   * find_best's word array has AST_MAX_CMD_LEN slots. When the line matched
   * nothing in mode 0, the suggestion keeps fewer than AST_MAX_CMD_LEN words,
   * so the array keeps its NULL terminator.
   */
  lemma BestFits(b: seq<Entry>, h: seq<Entry>, argv: seq<string>)
    requires Consistent(b, h) && 0 < |argv| && Found(b + h, argv, 0) == null
    ensures BestFrom(b + h, argv, 0) < MaxCmdLen
  {
    var r := BestFrom(b + h, argv, 0);
    BestFromSpec(b + h, argv, 0);
    ConsistentPathsFit(b, h);
    if r > 1 {
      AbbreviationFits(b + h, argv, r - 1);
    }
  }

  // ---------------------------------------------------------------------
  // help_workhorse and handle_help

  /** The line handle_help prints for a topic that abbreviates nothing. */
  function NoHelpFor(topic: string): string
  {
    "No such command '" + topic + "'.\n"
  }

  /** The lines help_workhorse prints: the merged walk, filtered by the joined topic when there is one. */
  function HelpListing(b: seq<Entry>, h: seq<Entry>, topic: Option<seq<string>>): seq<string>
  {
    ListingOf(Merge(b, h), if topic.Some? then Some(Joined(topic.value)) else None)
  }

  /**
   * handle_help with the whole argument vector (argv[0] is "help"): with no
   * topic the full listing; with a topic, the usage of the command it names
   * exactly, else the listing of what it abbreviates, else "No such command".
   */
  function HelpReply(b: seq<Entry>, h: seq<Entry>, argv: seq<string>): Reply
  {
    if |argv| < 1 then Reply(ResultShowUsage, [])
    else if |argv| > 1 then
      var topic := argv[1..];
      var e := Found(b + h, topic, 1);
      if e != null then Reply(ResultSuccess, [e.usage])
      else if Found(b + h, topic, -1) != null then Reply(ResultSuccess, HelpListing(b, h, Some(topic)))
      else Reply(ResultSuccess, [NoHelpFor(Joined(topic))])
    else Reply(ResultSuccess, HelpListing(b, h, None))
  }

  /** "help <path>" for a registered path prints that command's usage and nothing else. */
  lemma HelpOnRegistered(b: seq<Entry>, h: seq<Entry>, e: Entry)
    requires Consistent(b, h) && e in b + h
    ensures HelpReply(b, h, ["help"] + e.cmda) == Reply(ResultSuccess, [e.usage])
  {
    assert (["help"] + e.cmda)[1..] == e.cmda;
    RegisteredIsFound(b, h, e);
  }

  /** "help" alone lists every builtin and every helper, one line each, in merged order. */
  lemma HelpListsEverything(b: seq<Entry>, h: seq<Entry>)
    ensures HelpReply(b, h, ["help"]).code == ResultSuccess
    ensures |HelpReply(b, h, ["help"]).lines| == |b| + |h|
    ensures forall e :: e in b + h ==> ListLine(e) in HelpReply(b, h, ["help"]).lines
  {
    MergeMultiset(b, h);
    ListingAll(Merge(b, h));
    forall e | e in b + h
      ensures ListLine(e) in HelpReply(b, h, ["help"]).lines
    {
      assert e in multiset(b + h);
      assert e in multiset(Merge(b, h));
      ListingContains(Merge(b, h), None, ListLine(e));
    }
  }

  /**
   * "help <topic>" where the topic only abbreviates paths lists exactly the
   * entries whose joined path starts with the joined topic.
   */
  lemma HelpOnAbbreviation(b: seq<Entry>, h: seq<Entry>, topic: seq<string>, line: string)
    requires |topic| > 0 && Found(b + h, topic, 1) == null && Found(b + h, topic, -1) != null
    ensures line in HelpReply(b, h, ["help"] + topic).lines <==>
      exists e :: e in b + h && PrefixCI(Joined(topic), Key(e)) && line == ListLine(e)
  {
    var argv := ["help"] + topic;
    assert argv[1..] == topic;
    var m := Merge(b, h);
    assert HelpReply(b, h, argv).lines == ListingOf(m, Some(Joined(topic)));
    MergeMultiset(b, h);
    ListingContains(m, Some(Joined(topic)), line);
    if line in ListingOf(m, Some(Joined(topic))) {
      var e :| e in m && Selected(e, Some(Joined(topic))) && line == ListLine(e);
      MultisetIn(m, e);
      MultisetIn(b + h, e);
    }
    if exists e :: e in b + h && PrefixCI(Joined(topic), Key(e)) && line == ListLine(e) {
      var e :| e in b + h && PrefixCI(Joined(topic), Key(e)) && line == ListLine(e);
      MultisetIn(m, e);
      MultisetIn(b + h, e);
      assert e in m && Selected(e, Some(Joined(topic)));
    }
  }

  // ---------------------------------------------------------------------
  // ast_cli_command

  /** The line ast_cli_command prints for a line no entry matches, with the suggestion s. */
  function Unknown(s: string): string
  {
    "No such command '" + s + "' (type 'help' for help)\n"
  }

  /** What running a handler on argv gives. */
  function RunHandler(b: seq<Entry>, h: seq<Entry>, e: Entry, argv: seq<string>): Reply
  {
    match e.handler
    case HelpHandler => HelpReply(b, h, argv)
    case Foreign(run) => run(argv)
  }

  /**
   * What ast_cli_command prints for the words args of a line: nothing for an
   * empty line; otherwise the output of the handler of the first entry whose
   * path starts args, followed by its usage when the handler asks for it; or
   * the suggestion when no entry matches.
   */
  function Dispatch(b: seq<Entry>, h: seq<Entry>, args: seq<string>): seq<string>
  {
    if |args| == 0 then []
    else
      var e := Found(b + h, args, 0);
      if e == null then [Unknown(Suggestion(b + h, args))]
      else
        var r := RunHandler(b, h, e, args);
        r.lines + (if r.code == ResultShowUsage then [e.usage] else [])
  }

  /**
   * When exactly one entry's path starts the typed words, its handler gets all
   * of them, and its usage is printed exactly when it answers RESULT_SHOWUSAGE.
   */
  lemma DispatchToOwner(b: seq<Entry>, h: seq<Entry>, args: seq<string>, e: Entry)
    requires e in b + h && WordPrefixCI(e.cmda, args) && |args| > 0
    requires forall x :: x in b + h && x != e ==> !WordPrefixCI(x.cmda, args)
    ensures Dispatch(b, h, args) ==
      RunHandler(b, h, e, args).lines +
      (if RunHandler(b, h, e, args).code == ResultShowUsage then [e.usage] else [])
  {
    FoundSpec(b + h, args, 0);
    var k :| 0 <= k < |b + h| && (b + h)[k] == e;
    assert Matches((b + h)[k].cmda, args, 0);
  }

  /** An unknown command prints one line: the suggestion. */
  lemma DispatchUnknown(b: seq<Entry>, h: seq<Entry>, args: seq<string>)
    requires |args| > 0 && forall x :: x in b + h ==> !WordPrefixCI(x.cmda, args)
    ensures Dispatch(b, h, args) == [Unknown(Suggestion(b + h, args))]
  {
    FoundSpec(b + h, args, 0);
  }

  /** Typing "help" runs the builtin help handler, which lists every command. */
  lemma HelpCommandLists(b: seq<Entry>, h: seq<Entry>)
    requires Paths(b) == BuiltinPaths && b[0].handler == HelpHandler
    ensures Dispatch(b, h, ["help"]) == HelpListing(b, h, None)
  {
    MatchesSelf(["help"], 0);
    assert (b + h)[0] == b[0];
    assert Found(b + h, ["help"], 0) == b[0];
  }

  /**
   * Typing "help" followed by a registered path prints that command's usage,
   * here "help help".
   */
  lemma HelpOnHelp(b: seq<Entry>, h: seq<Entry>)
    requires Consistent(b, h) && Paths(b) == BuiltinPaths && b[0].handler == HelpHandler
    ensures Dispatch(b, h, ["help", "help"]) == [b[0].usage]
  {
    var args := ["help", "help"];
    assert b[0].cmda == ["help"];
    assert WordPrefixCI(b[0].cmda, args) by {
      assert EqualCI(args[0], args[0]);
    }
    assert (b + h)[0] == b[0];
    assert Found(b + h, args, 0) == b[0];
    assert args == ["help"] + b[0].cmda;
    HelpOnRegistered(b, h, b[0]);
  }

  // ---------------------------------------------------------------------
  // ast_cli_generator

  /** What ast_cli_generator returns for the line text, the word being completed and state. */
  function Completion(b: seq<Entry>, h: seq<Entry>, text: string, word: string, state: nat): Option<string>
  {
    var args := Tokenize(text);
    CompleteFrom(Merge(b, h), text, word, Joined(args), |args|, state, 0)
  }

  /**
   * With no helpers, completing an argument of "load" is handed to load's
   * generator: help is no candidate, load is no candidate either (the line is
   * longer than its path) and its path is contained in the line.
   */
  lemma LoadArgumentCompletion(b: seq<Entry>, text: string, word: string, x: string, state: nat)
    requires Paths(b) == BuiltinPaths && b[0].generator.None? && b[1].generator.Some?
    requires Tokenize(text) == ["load", x]
    ensures Completion(b, [], text, word, state) == b[1].generator.value(text, word, CompletionPos(word, 2), state)
  {
    var ms := Joined(["load", x]);
    assert ["load", x][..1] == ["load"] && Joined(["load"]) == "load";
    assert ms == Joined(["load"]) + " " + x;
    assert b[0].cmda == ["help"] && b[1].cmda == ["load"];
    assert Key(b[0]) == "help" && Key(b[1]) == "load";
    assert ms[..4] == "load";
    assert PrefixCI(Key(b[1]), ms);
    assert NoHandOff([b[0]], ms);
    assert Candidates([b[0]], ms) == [] by {
      assert [b[0]][1..] == [];
    }
    MergeNoHelpers(b, 0);
    assert b == [b[0]] + ([b[1]] + b[2..]);
    GeneratorHandOff(b, [b[0]], b[1], b[2..], text, word, ms, 2, state, 0);
  }

  // ---------------------------------------------------------------------
  // Steps of the loops that compute the functions above

  lemma ConcatAssoc<T>(a: seq<T>, b: seq<T>, c: seq<T>)
    ensures (a + b) + c == a + (b + c)
  {
  }

  /** A position that no earlier entry matches and that matches (or is the end) is FirstMatch. */
  lemma FirstMatchIs(es: seq<Entry>, cmds: seq<string>, exact: int, x: nat)
    requires x <= |es| && forall j :: 0 <= j < x ==> !Matches(es[j].cmda, cmds, exact)
    requires x < |es| ==> Matches(es[x].cmda, cmds, exact)
    ensures FirstMatch(es, cmds, exact) == x
  {
  }

  lemma InsertAtIs(h: seq<Entry>, key: string, k: nat)
    requires k <= |h| && forall j :: 0 <= j < k ==> !TruncatedLess(key, Joined2(h[j].cmda))
    requires k < |h| ==> TruncatedLess(key, Joined2(h[k].cmda))
    ensures InsertAt(h, key) == k
  {
  }

  lemma IndexOfIs(h: seq<Entry>, e: Entry, k: nat)
    requires k <= |h| && forall j :: 0 <= j < k ==> h[j] != e
    requires k < |h| ==> h[k] == e
    ensures IndexOf(h, e) == k
  {
  }

  /** One step of the listing: the first entry's line (when selected), then the rest. */
  lemma ListingCons(x: Entry, rest: seq<Entry>, topic: Option<string>)
    ensures ListingOf([x] + rest, topic) == (if Selected(x, topic) then [ListLine(x)] else []) + ListingOf(rest, topic)
  {
    assert ([x] + rest)[0] == x && ([x] + rest)[1..] == rest;
  }

  /** The entry the walk takes at cursors i and j, and where the cursors go next. */
  lemma MergeStep(b: seq<Entry>, h: seq<Entry>, i: nat, j: nat)
    requires i <= |b| && j <= |h| && (i < |b| || j < |h|)
    ensures TakeHelper(b, h, i, j) ==> j < |h| && MergeFrom(b, h, i, j) == [h[j]] + MergeFrom(b, h, i, j + 1)
    ensures !TakeHelper(b, h, i, j) ==> i < |b| && MergeFrom(b, h, i, j) == [b[i]] + MergeFrom(b, h, i + 1, j)
  {
  }

  // ---------------------------------------------------------------------
  // The builtins table

  /** Distinct objects are each listed once. */
  lemma {:induction false} DistinctNoDuplicates(s: seq<Entry>)
    requires forall i, j :: 0 <= i < j < |s| ==> s[i] != s[j]
    ensures NoDuplicates(s)
    decreases |s|
  {
    if |s| > 0 {
      DistinctNoDuplicates(s[1..]);
      assert s == [s[0]] + s[1..];
      assert s[0] !in s[1..];
      forall x | x in s
        ensures multiset(s)[x] == 1
      {
        if x != s[0] {
          assert x in s[1..];
        }
      }
    }
  }

  /** Two paths that differ in some word are not equal. */
  lemma PathsDiffer(p: seq<string>, q: seq<string>, i: nat)
    requires i < |p| && i < |q| && !EqualCI(p[i], q[i])
    ensures !WordsEqualCI(p, q) && !WordsEqualCI(q, p)
  {
  }

  /** No two paths of the table are equal, ignoring case. */
  lemma BuiltinPathsDiffer()
    ensures forall i, j :: 0 <= i < |BuiltinPaths| && 0 <= j < |BuiltinPaths| && i != j ==>
      !WordsEqualCI(BuiltinPaths[i], BuiltinPaths[j])
  {
    var p := BuiltinPaths;
    FirstLetterDiffers("help", "load");
    FirstLetterDiffers("help", "unload");
    FirstLetterDiffers("load", "unload");
    FirstLetterDiffers("channel", "modules");
    FirstLetterDiffers("channels", "modules");
    PathsDiffer(p[0], p[1], 0);
    PathsDiffer(p[0], p[5], 0);
    PathsDiffer(p[1], p[5], 0);
    PathsDiffer(p[2], p[3], 1);
    PathsDiffer(p[2], p[4], 1);
    PathsDiffer(p[3], p[4], 1);
  }

  /** The builtins table on its own satisfies the registry invariant. */
  lemma BuiltinsConsistent(b: seq<Entry>)
    requires Paths(b) == BuiltinPaths
    requires forall i, j :: 0 <= i < j < |b| ==> b[i] != b[j]
    ensures Consistent(b, [])
  {
    assert b + [] == b;
    DistinctNoDuplicates(b);
    BuiltinPathsDiffer();
    forall x | x in b
      ensures 0 < |x.cmda| < MaxCmdLen
    {
      var k :| 0 <= k < |b| && b[k] == x;
      assert Paths(b)[k] == BuiltinPaths[k];
    }
    forall x, y | x in b && y in b && x != y
      ensures !WordsEqualCI(x.cmda, y.cmda)
    {
      var k :| 0 <= k < |b| && b[k] == x;
      var l :| 0 <= l < |b| && b[l] == y;
      assert Paths(b)[k] == BuiltinPaths[k] && Paths(b)[l] == BuiltinPaths[l];
    }
  }

  /** Words with different first letters (ignoring case) differ. */
  lemma FirstLetterDiffers(a: string, c: string)
    requires |a| > 0 && |c| > 0 && Lower(a[0]) != Lower(c[0])
    ensures !EqualCI(a, c)
  {
  }

  /** A path whose i-th word differs from the i-th typed word does not start the typed words. */
  lemma WordDiffers(p: seq<string>, w: seq<string>, i: nat)
    requires i < |p| && i < |w| && !EqualCI(p[i], w[i])
    ensures !WordPrefixCI(p, w)
  {
  }

  lemma BuiltinEntries(b: seq<Entry>)
    requires Paths(b) == BuiltinPaths
    ensures |b| == 6
    ensures b[0].cmda == ["help"] && b[1].cmda == ["load"] && b[2].cmda == ["show", "channel"]
    ensures b[3].cmda == ["show", "channels"] && b[4].cmda == ["show", "modules"] && b[5].cmda == ["unload"]
  {
    assert |Paths(b)| == 6;
    assert Paths(b)[0] == b[0].cmda && Paths(b)[1] == b[1].cmda && Paths(b)[2] == b[2].cmda;
    assert Paths(b)[3] == b[3].cmda && Paths(b)[4] == b[4].cmda && Paths(b)[5] == b[5].cmda;
  }

  /** Joined paths of the table: "help", "load", "show channel", ... */
  lemma BuiltinKeys(b: seq<Entry>)
    requires Paths(b) == BuiltinPaths
    ensures Key(b[0]) == "help" && Key(b[1]) == "load" && Key(b[2]) == "show channel"
    ensures Key(b[3]) == "show channels" && Key(b[4]) == "show modules" && Key(b[5]) == "unload"
  {
    BuiltinEntries(b);
    assert ["show", "channel"][..1] == ["show"];
    assert ["show", "channels"][..1] == ["show"];
    assert ["show", "modules"][..1] == ["show"];
  }

  /** The builtins table is kept alphabetised: its joined paths increase strictly under strcmp. */
  lemma BuiltinsSorted(b: seq<Entry>)
    requires Paths(b) == BuiltinPaths
    ensures Sorted(b)
  {
    BuiltinKeys(b);
    var k := ["help", "load", "show channel", "show channels", "show modules", "unload"];
    assert forall i :: 0 <= i < |b| ==> Key(b[i]) == k[i];
    BuiltinKeyPairs();
    SixIncreasing("help", "load", "show channel", "show channels", "show modules", "unload");
    SortedByKeys(b, k);
  }

  /**
   * With the builtins table as shipped, the help listing comes out in strcmp
   * order whenever the helpers list is in that order.
   */
  lemma ListingInOrder(b: seq<Entry>, h: seq<Entry>)
    requires Paths(b) == BuiltinPaths && Sorted(h)
    ensures Sorted(Merge(b, h))
  {
    BuiltinsSorted(b);
    MergeSorted(b, h);
  }

  /** The joined builtin paths, in table order, increase strictly under strcmp. */
  lemma BuiltinKeyPairs()
    ensures StrLess("help", "load") && StrLess("load", "show channel")
    ensures StrLess("show channel", "show channels") && StrLess("show channels", "show modules")
    ensures StrLess("show modules", "unload")
  {
    StrLessAt("help", "load", 0);
    StrLessAt("load", "show channel", 0);
    ChannelBeforeChannels();
    ChannelsBeforeModules();
    StrLessAt("show modules", "unload", 0);
  }

  /** Six strings increasing pairwise, as a sequence. */
  lemma SixIncreasing(k0: string, k1: string, k2: string, k3: string, k4: string, k5: string)
    requires StrLess(k0, k1) && StrLess(k1, k2) && StrLess(k2, k3) && StrLess(k3, k4) && StrLess(k4, k5)
    ensures forall i :: 0 <= i < 5 ==> StrLess([k0, k1, k2, k3, k4, k5][i], [k0, k1, k2, k3, k4, k5][i + 1])
  {
  }

  lemma ChannelBeforeChannels()
    ensures StrLess("show channel", "show channels")
  {
    StrLessAt("show channel", "show channels", 12);
  }

  lemma ChannelsBeforeModules()
    ensures StrLess("show channels", "show modules")
  {
    StrLessAt("show channels", "show modules", 5);
  }

  /** "show channels" runs the builtin channel list, whatever modules have registered. */
  lemma ShowChannelsIsBuiltin(b: seq<Entry>, h: seq<Entry>)
    requires Paths(b) == BuiltinPaths
    ensures Found(b + h, ["show", "channels"], 0) == b[3]
  {
    var cmds := ["show", "channels"];
    BuiltinEntries(b);
    FirstLetterDiffers("help", "show");
    FirstLetterDiffers("load", "show");
    WordDiffers(b[0].cmda, cmds, 0);
    WordDiffers(b[1].cmda, cmds, 0);
    WordDiffers(b[2].cmda, cmds, 1);
    MatchesSelf(cmds, 0);
    assert FirstMatch(b, cmds, 0) == 3 by {
      assert b[1..][0] == b[1] && b[1..][1..][0] == b[2] && b[1..][1..][1..][0] == b[3];
    }
    FoundConcat(b, h, cmds, 0);
    assert (b + h)[3] == b[3];
  }

  /** No builtin path starts with the single word "show". */
  lemma NoBuiltinIsShow(b: seq<Entry>)
    requires Paths(b) == BuiltinPaths
    ensures forall k :: 0 <= k < |b| ==> !WordPrefixCI(b[k].cmda, ["show"])
  {
    BuiltinEntries(b);
    FirstLetterDiffers("help", "show");
    FirstLetterDiffers("load", "show");
    FirstLetterDiffers("unload", "show");
    WordDiffers(b[0].cmda, ["show"], 0);
    WordDiffers(b[1].cmda, ["show"], 0);
    WordDiffers(b[5].cmda, ["show"], 0);
  }

  /** A path that starts the single word "show" starts "show channel" too. */
  lemma ShowStartsShowChannel(p: seq<string>)
    ensures WordPrefixCI(p, ["show"]) ==> WordPrefixCI(p, ["show", "channel"])
  {
  }

  /** No entry path of a consistent registry is just "show". */
  lemma NothingIsShow(b: seq<Entry>, h: seq<Entry>, x: Entry)
    requires Consistent(b, h) && Paths(b) == BuiltinPaths && x in b + h
    ensures !WordPrefixCI(x.cmda, ["show"])
  {
    if x in b {
      NoBuiltinIsShow(b);
    } else {
      BuiltinEntries(b);
      ShowStartsShowChannel(x.cmda);
      assert x in h && b[2] in b;
    }
  }

  /** The suggestion for "show" is "show" itself: it abbreviates "show channel". */
  lemma ShowSuggestsShow(b: seq<Entry>, h: seq<Entry>)
    requires Paths(b) == BuiltinPaths
    ensures Suggestion(b + h, ["show"]) == "show"
  {
    var cmds := ["show"];
    BuiltinEntries(b);
    assert cmds[..1] == cmds;
    MatchesSelf(cmds, 0);
    assert (b + h)[2] == b[2];
    assert Matches((b + h)[2].cmda, cmds, -1);
    FoundSpec(b + h, cmds, -1);
    assert BestFrom(b + h, cmds, 0) == 1;
  }

  /**
   * "show" names no command: it only abbreviates "show channel" and its
   * neighbours, so the console answers with the suggestion "show".
   */
  lemma ShowIsUnknown(b: seq<Entry>, h: seq<Entry>)
    requires Consistent(b, h) && Paths(b) == BuiltinPaths
    ensures Dispatch(b, h, ["show"]) == [Unknown("show")]
  {
    forall x | x in b + h
      ensures !WordPrefixCI(x.cmda, ["show"])
    {
      NothingIsShow(b, h, x);
    }
    DispatchUnknown(b, h, ["show"]);
    ShowSuggestsShow(b, h);
  }
}

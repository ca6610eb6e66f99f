/**
 * The command line interface of cli.c as a stateful object: the static builtins
 * table, the global helpers list, and the operations that read and change
 * them. Each method follows the loops of the C code and is proved to compute
 * the function of the Commands module that specifies it.
 */
module Cli {
  import opened Wrappers
  import opened CliText
  import opened Tokenizer
  import opened Matching
  import opened Listing
  import opened Commands

  /** The usage texts of the builtins. */
  const HelpUsage: string :=
    "Usage: help [topic]\n" +
    "       When called with a topic as an argument, displays usage\n" +
    "       information on the given command.  If called without a\n" +
    "       topic, it provides a list of commands.\n"
  const LoadUsage: string :=
    "Usage: load <module name>\n" +
    "       Loads the specified module into Asterisk.\n"
  const ShowChannelUsage: string :=
    "Usage: show channel <channel>\n" +
    "       Shows lots of information about the specified channel.\n"
  const ChannelsUsage: string :=
    "Usage: show channels\n" +
    "       Lists currently defined channels and some information about\n" +
    "       them.\n"
  const ModulesUsage: string :=
    "Usage: show modules\n" +
    "       Shows Asterisk modules currently in use, and usage " +
    "statistics.\n"
  const UnloadUsage: string :=
    "Usage: unload [-f|-h] <module name>\n" +
    "       Unloads the specified module from Asterisk.  The -f\n" +
    "       option causes the module to be unloaded even if it is\n" +
    "       in use (may cause a crash) and the -h module causes the\n" +
    "       module to be unloaded even if the module says it cannot, \n" +
    "       which almost always will cause a crash.\n"

  /** The one-line summaries of the builtins, as help prints them. */
  const HelpSummary: string := "Display help list, or specific help on a command"
  const LoadSummary: string := "Load a dynamic module by name"
  const ShowChannelSummary: string := "Display information on a specific channel"
  const ChannelsSummary: string := "Display information on channels"
  const ModulesSummary: string := "List modules and info"
  const UnloadSummary: string := "Unload a dynamic module by name"

  /**
   * The handlers, summaries, usage texts and completion generators of the six builtins,
   * in table order: help, load, show channel, show channels, show modules, unload.
   */
  ghost predicate TableOf(b: seq<Entry>, load: seq<string> -> Reply, unload: seq<string> -> Reply,
                    showChannel: seq<string> -> Reply, channels: seq<string> -> Reply,
                    modules: seq<string> -> Reply, completeFn: Generator, completeCh: Generator)
  {
    |b| == 6 &&
    b[0].handler == HelpHandler && b[0].summary == HelpSummary && b[0].usage == HelpUsage && b[0].generator == None &&
    b[1].handler == Foreign(load) && b[1].summary == LoadSummary && b[1].usage == LoadUsage && b[1].generator == Some(completeFn) &&
    b[2].handler == Foreign(showChannel) && b[2].summary == ShowChannelSummary && b[2].usage == ShowChannelUsage && b[2].generator == Some(completeCh) &&
    b[3].handler == Foreign(channels) && b[3].summary == ChannelsSummary && b[3].usage == ChannelsUsage && b[3].generator == None &&
    b[4].handler == Foreign(modules) && b[4].summary == ModulesSummary && b[4].usage == ModulesUsage && b[4].generator == None &&
    b[5].handler == Foreign(unload) && b[5].summary == UnloadSummary && b[5].usage == UnloadUsage && b[5].generator == Some(completeFn)
  }

  /** find_best's word array after x words: argv[0..x-1], then NULL padding. */
  function Filled(argv: seq<string>, x: nat): (r: seq<Option<string>>)
    requires x <= |argv| && x <= MaxCmdLen
    ensures |r| == MaxCmdLen
    ensures forall k :: 0 <= k < x ==> r[k] == Some(argv[k])
    ensures forall k :: x <= k < MaxCmdLen ==> r[k] == None
  {
    seq(MaxCmdLen, k requires 0 <= k < MaxCmdLen => if k < x then Some(argv[k]) else None)
  }

  lemma FilledNext(argv: seq<string>, x: nat)
    requires x < |argv| && x < MaxCmdLen
    ensures Filled(argv, x)[x := Some(argv[x])] == Filled(argv, x + 1)
  {
  }

  /**
   * The words of a NULL-terminated word array, as join and find_cli read it:
   * the slots before the first NULL (all of them when there is none).
   */
  function UpToNull(a: seq<Option<string>>): (r: seq<string>)
    ensures |r| <= |a|
    ensures forall k :: 0 <= k < |r| ==> a[k] == Some(r[k])
    ensures |r| == |a| || a[|r|] == None
  {
    if |a| == 0 || a[0] == None then [] else [a[0].value] + UpToNull(a[1..])
  }

  /** An array holding the words of w, then NULL or its end, reads as w. */
  lemma {:induction false} UpToNullOf(a: seq<Option<string>>, w: seq<string>)
    requires |w| <= |a| && (forall k :: 0 <= k < |w| ==> a[k] == Some(w[k]))
    requires |w| == |a| || a[|w|] == None
    ensures UpToNull(a) == w
  {
    if |w| > 0 {
      assert forall k :: 0 <= k < |w| - 1 ==> a[1..][k] == a[k + 1] && w[1..][k] == w[k + 1];
      UpToNullOf(a[1..], w[1..]);
      assert [w[0]] + w[1..] == w;
    }
  }

  /** The words find_best's array holds after x words are stored are argv[..x]. */
  lemma FilledWords(argv: seq<string>, x: nat)
    requires x <= |argv| && x <= MaxCmdLen
    ensures UpToNull(Filled(argv, x)) == argv[..x]
  {
    UpToNullOf(Filled(argv, x), argv[..x]);
  }

  class Registry {
    /** The builtins table, in its alphabetical order. */
    const builtins: seq<Entry>
    /** The helpers list, in list order. */
    var helpers: seq<Entry>

    ghost predicate Valid()
      reads this
    {
      Consistent(builtins, helpers) && Paths(builtins) == BuiltinPaths
    }

    /**
     * The initial state: the six builtins, with the handlers and completion
     * generators of the module loader and the channel list passed in, and no
     * helpers.
     */
    constructor (load: seq<string> -> Reply, unload: seq<string> -> Reply,
                 showChannel: seq<string> -> Reply, channels: seq<string> -> Reply,
                 modules: seq<string> -> Reply, completeFn: Generator, completeCh: Generator)
      ensures Valid() && helpers == []
      ensures TableOf(builtins, load, unload, showChannel, channels, modules, completeFn, completeCh)
    {
      var b := Table(load, unload, showChannel, channels, modules, completeFn, completeCh);
      builtins := b;
      helpers := [];
      new;
      BuiltinsConsistent(builtins);
    }

    /** The builtins table with the given handlers and generators. */
    static method Table(load: seq<string> -> Reply, unload: seq<string> -> Reply,
                        showChannel: seq<string> -> Reply, channels: seq<string> -> Reply,
                        modules: seq<string> -> Reply, completeFn: Generator, completeCh: Generator)
      returns (b: seq<Entry>)
      ensures Paths(b) == BuiltinPaths
      ensures forall i, j :: 0 <= i < j < |b| ==> b[i] != b[j]
      ensures TableOf(b, load, unload, showChannel, channels, modules, completeFn, completeCh)
    {
      var help := new Entry(["help"], HelpHandler,
        HelpSummary, HelpUsage, None);
      var ld := new Entry(["load"], Foreign(load),
        LoadSummary, LoadUsage, Some(completeFn));
      var sc := new Entry(["show", "channel"], Foreign(showChannel),
        ShowChannelSummary, ShowChannelUsage, Some(completeCh));
      var scs := new Entry(["show", "channels"], Foreign(channels),
        ChannelsSummary, ChannelsUsage, None);
      var sm := new Entry(["show", "modules"], Foreign(modules),
        ModulesSummary, ModulesUsage, None);
      var ul := new Entry(["unload"], Foreign(unload),
        UnloadSummary, UnloadUsage, Some(completeFn));
      b := [help, ld, sc, scs, sm, ul];
      assert Paths(b) == BuiltinPaths;
    }

    /** find_cli: the first entry, builtins first, that matches cmds in mode exact, or null. */
    method FindCli(cmds: seq<string>, exact: int) returns (e: Entry?)
      ensures e == Found(builtins + helpers, cmds, exact)
    {
      var x := 0;
      while x < |builtins|
        invariant x <= |builtins|
        invariant forall k :: 0 <= k < x ==> !Matches(builtins[k].cmda, cmds, exact)
      {
        var hit := MatchEntry(builtins[x].cmda, cmds, exact);
        if hit {
          FirstMatchIs(builtins, cmds, exact, x);
          FoundConcat(builtins, helpers, cmds, exact);
          return builtins[x];
        }
        x := x + 1;
      }
      FirstMatchIs(builtins, cmds, exact, x);
      var y := 0;
      while y < |helpers|
        invariant y <= |helpers|
        invariant forall k :: 0 <= k < y ==> !Matches(helpers[k].cmda, cmds, exact)
      {
        var hit := MatchEntry(helpers[y].cmda, cmds, exact);
        if hit {
          break;
        }
        y := y + 1;
      }
      FirstMatchIs(helpers, cmds, exact, y);
      FoundConcat(builtins, helpers, cmds, exact);
      e := if y < |helpers| then helpers[y] else null;
      assert y < |helpers| ==> (builtins + helpers)[|builtins| + y] == helpers[y];
    }

    /**
     * ast_cli_register: -1 and no change when the new path equals or
     * abbreviates a path already there; otherwise 0, with e linked in before
     * the first helper whose join2 path it sorts below (truncated strncasecmp),
     * or at the end.
     */
    method Register(e: Entry) returns (rc: int)
      requires Valid() && |e.cmda| < MaxCmdLen
      modifies this
      ensures Valid()
      ensures rc == 0 || rc == -1
      ensures rc == -1 <==> Refused(builtins, old(helpers), e)
      ensures rc == -1 ==> helpers == old(helpers)
      ensures rc == 0 ==> helpers == Inserted(old(helpers), e) && multiset(builtins + helpers)[e] == 1
    {
      var fulle := Join2(e.cmda);
      var found := FindCli(e.cmda, -1);
      if found != null {
        return -1;
      }
      var cur := InsertionPoint(fulle);
      RegisterKeepsConsistent(builtins, helpers, e);
      helpers := helpers[..cur] + [e] + helpers[cur..];
      rc := 0;
    }

    /** The loop of ast_cli_register that looks for the node to link e in front of. */
    method InsertionPoint(fulle: string) returns (cur: nat)
      ensures cur == InsertAt(helpers, fulle)
    {
      cur := 0;
      while cur < |helpers|
        invariant cur <= |helpers|
        invariant forall j :: 0 <= j < cur ==> !TruncatedLess(fulle, Joined2(helpers[j].cmda))
      {
        var fulltst := Join2(helpers[cur].cmda);
        var len := |fulltst|;
        if |fulle| < len {
          len := |fulle|;
        }
        if NCaseLess(fulle, fulltst, len) {
          break;
        }
        cur := cur + 1;
      }
      InsertAtIs(helpers, fulle, cur);
    }

    /** ast_cli_unregister: unlinks the node that is e itself, if there is one, and returns 0. */
    method Unregister(e: Entry) returns (rc: int)
      requires Valid()
      modifies this
      ensures Valid() && rc == 0
      ensures helpers == Removed(old(helpers), e)
    {
      var cur := 0;
      while cur < |helpers|
        invariant cur <= |helpers|
        invariant forall j :: 0 <= j < cur ==> helpers[j] != e
      {
        if helpers[cur] == e {
          break;
        }
        cur := cur + 1;
      }
      IndexOfIs(helpers, e, cur);
      UnregisterKeepsConsistent(builtins, helpers, e);
      ghost var after := Removed(helpers, e);
      if cur < |helpers| {
        helpers := helpers[..cur] + helpers[cur + 1..];
      }
      assert helpers == after;
      rc := 0;
    }

    /**
     * find_best: copies the words of argv into a NULL-padded array of
     * AST_MAX_CMD_LEN slots until the copied words abbreviate nothing, and
     * joins what it copied. Called only for a line find_cli(argv, 0) did not
     * resolve, which keeps every write inside the array.
     */
    method FindBest(argv: seq<string>) returns (line: string)
      requires PathsFit(builtins + helpers) && Found(builtins + helpers, argv, 0) == null
      ensures line == Suggestion(builtins + helpers, argv)
    {
      ghost var es := builtins + helpers;
      var myargv := new Option<string>[MaxCmdLen](_ => None);
      assert myargv[..] == Filled(argv, 0);
      var x := 0;
      var found := true;
      while found && x < |argv|
        invariant x <= |argv| && x < MaxCmdLen && (found ==> x < MaxCmdLen - 1)
        invariant x == 0 ==> found
        invariant found && 0 < x < |argv| ==> BestFrom(es, argv, 0) == BestFrom(es, argv, x)
        invariant found && 0 < x == |argv| ==> BestFrom(es, argv, 0) == |argv|
        invariant !found ==> x > 0 && BestFrom(es, argv, 0) == x
        invariant myargv[..] == Filled(argv, x)
      {
        Put(myargv, x, argv[x]);
        FilledNext(argv, x);
        FilledWords(argv, x + 1);
        found := Abbreviates(argv, UpToNull(myargv[..]), x + 1);
        x := x + 1;
      }
      FilledWords(argv, x);
      line := Join(UpToNull(myargv[..]));
    }

    /** Stores word w in slot x of the word array. */
    static method Put(a: array<Option<string>>, x: nat, w: string)
      requires x < a.Length
      modifies a
      ensures a[..] == old(a[..])[x := Some(w)]
    {
      a[x] := Some(w);
    }

    /**
     * Whether the words typed, the first n words of argv, abbreviate a path, as
     * find_best asks find_cli.
     */
    method Abbreviates(argv: seq<string>, typed: seq<string>, n: nat) returns (found: bool)
      requires PathsFit(builtins + helpers) && Found(builtins + helpers, argv, 0) == null && 0 < n <= |argv|
      requires typed == argv[..n]
      ensures found == (Found(builtins + helpers, argv[..n], -1) != null)
      ensures found ==> n < MaxCmdLen - 1
      ensures !found ==> BestFrom(builtins + helpers, argv, n - 1) == n
      ensures found && n < |argv| ==> BestFrom(builtins + helpers, argv, n - 1) == BestFrom(builtins + helpers, argv, n)
      ensures found && n == |argv| ==> BestFrom(builtins + helpers, argv, n - 1) == n
    {
      var f := FindCli(typed, -1);
      found := f != null;
      if found {
        AbbreviationFits(builtins + helpers, argv, n);
      }
    }

    /**
     * One step of the walk help_workhorse and ast_cli_generator make over both
     * sources: join the paths under the two cursors, take the helper when the
     * builtins are used up or its path is strictly below under strcmp, and
     * advance that cursor.
     */
    method Pick(i: nat, j: nat) returns (e: Entry, fullcmd: string, i': nat, j': nat)
      requires i <= |builtins| && j <= |helpers| && (i < |builtins| || j < |helpers|)
      ensures i' <= |builtins| && j' <= |helpers| && i' + j' == i + j + 1
      ensures MergeFrom(builtins, helpers, i, j) == [e] + MergeFrom(builtins, helpers, i', j')
      ensures fullcmd == Key(e)
    {
      var full2 := "";
      if j < |helpers| {
        full2 := Join(helpers[j].cmda);
      }
      var full1 := "";
      if i < |builtins| {
        full1 := Join(builtins[i].cmda);
      }
      MergeStep(builtins, helpers, i, j);
      if i >= |builtins| || (j < |helpers| && StrLess(full2, full1)) {
        e, fullcmd, i', j' := helpers[j], full2, i, j + 1;
      } else {
        e, fullcmd, i', j' := builtins[i], full1, i + 1, j;
      }
    }

    /**
     * help_workhorse: walks the builtins and the helpers together and prints
     * the line of every entry the topic (when there is one) starts.
     */
    method HelpWorkhorse(topic: Option<seq<string>>) returns (out: seq<string>)
      ensures out == HelpListing(builtins, helpers, topic)
    {
      var matchstr: Option<string> := None;
      if topic.Some? {
        var m := Join(topic.value);
        matchstr := Some(m);
      }
      out := [];
      var i: nat, j: nat := 0, 0;
      while i < |builtins| || j < |helpers|
        invariant i <= |builtins| && j <= |helpers|
        invariant out + ListingOf(MergeFrom(builtins, helpers, i, j), matchstr) ==
          ListingOf(Merge(builtins, helpers), matchstr)
        decreases |builtins| - i + |helpers| - j
      {
        ghost var before := MergeFrom(builtins, helpers, i, j);
        ghost var out0 := out;
        var e, fullcmd;
        e, fullcmd, i, j := Pick(i, j);
        ghost var rest := MergeFrom(builtins, helpers, i, j);
        ghost var piece := if Selected(e, matchstr) then [ListLine(e)] else [];
        if matchstr.None? || PrefixCI(matchstr.value, fullcmd) {
          out := out + [Field20(fullcmd) + "   " + e.summary + "\n"];
        }
        ListingCons(e, rest, matchstr);
        assert out == out0 + piece;
        ghost var tail := ListingOf(rest, matchstr);
        assert ListingOf(before, matchstr) == piece + tail;
        ConcatAssoc(out0, piece, tail);
      }
    }

    /** handle_help, given the whole argument vector with "help" first. */
    method HandleHelp(argv: seq<string>) returns (rc: int, out: seq<string>)
      ensures Reply(rc, out) == HelpReply(builtins, helpers, argv)
    {
      if |argv| < 1 {
        return ResultShowUsage, [];
      }
      out := [];
      if |argv| > 1 {
        var e := FindCli(argv[1..], 1);
        if e != null {
          out := [e.usage];
        } else {
          var f := FindCli(argv[1..], -1);
          if f != null {
            out := HelpWorkhorse(Some(argv[1..]));
          } else {
            var fullcmd := Join(argv[1..]);
            out := [NoHelpFor(fullcmd)];
          }
        }
      } else {
        out := HelpWorkhorse(None);
      }
      rc := ResultSuccess;
    }

    /**
     * ast_cli_generator: tokenizes the line, walks the builtins and helpers
     * together counting the entries whose path the line starts, and returns the
     * next word of the one past `state`, or hands over to the generator of an
     * entry the whole line is inside. NULL when the copy cannot be allocated.
     */
    method Generator(text: string, word: string, state: nat, allocFails: bool) returns (res: Option<string>)
      requires IsCString(text)
      ensures allocFails ==> res == None
      ensures !allocFails ==> res == Completion(builtins, helpers, text, word, state)
    {
      var argv := new Option<nat>[MaxArgs](_ => None);
      var dup, x := ParseArgs(text, argv, allocFails);
      if dup == null {
        return None;
      }
      var args := Words(dup[..], argv[..x]);
      var matchstr := Join(args);
      res := Complete(text, word, matchstr, x, state);
    }

    /**
     * The walk of ast_cli_generator, after the line has been split into argc
     * words that join to matchstr.
     */
    method Complete(text: string, word: string, matchstr: string, argc: nat, state: nat) returns (res: Option<string>)
      ensures res == CompleteFrom(Merge(builtins, helpers), text, word, matchstr, argc, state, 0)
    {
      var pos: int := if |word| > 0 then (argc as int) - 1 else argc;
      var matchnum := 0;
      var i: nat, j: nat := 0, 0;
      while i < |builtins| || j < |helpers|
        invariant i <= |builtins| && j <= |helpers|
        invariant CompleteFrom(MergeFrom(builtins, helpers, i, j), text, word, matchstr, argc, state, matchnum) ==
          CompleteFrom(Merge(builtins, helpers), text, word, matchstr, argc, state, 0)
        decreases |builtins| - i + |helpers| - j
      {
        var e, fullcmd;
        ghost var m := MergeFrom(builtins, helpers, i, j);
        ghost var before := matchnum;
        e, fullcmd, i, j := Pick(i, j);
        ghost var rest := MergeFrom(builtins, helpers, i, j);
        CompleteCons(m, e, rest, text, word, matchstr, argc, state, before,
          if PrefixCI(matchstr, fullcmd) then before + 1 else before, pos);
        if PrefixCI(matchstr, fullcmd) {
          matchnum := matchnum + 1;
          if matchnum > state {
            var w := WordAt(e.cmda, pos);
            if w.Some? {
              return w;
            }
          }
        }
        if e.generator.Some? && PrefixCI(fullcmd, matchstr) {
          res := e.generator.value(text, word, pos, state);
          return;
        }
      }
      res := None;
    }

    /**
     * ast_cli_command: tokenizes the line and, when it has words, runs the
     * handler of the entry find_cli(argv, 0) finds, printing its usage when it
     * answers RESULT_SHOWUSAGE, or prints the suggestion when there is none.
     * -1 when the copy cannot be allocated, else 0.
     */
    method Command(s: string, allocFails: bool) returns (rc: int, out: seq<string>)
      requires Valid() && IsCString(s)
      ensures allocFails ==> rc == -1 && out == []
      ensures !allocFails ==> rc == 0 && out == Dispatch(builtins, helpers, Tokenize(s))
    {
      var argv := new Option<nat>[MaxArgs](_ => None);
      var dup, x := ParseArgs(s, argv, allocFails);
      if dup == null {
        return -1, [];
      }
      var args := Words(dup[..], argv[..x]);
      out := [];
      if x > 0 {
        var e := FindCli(args, 0);
        if e != null {
          var r;
          match e.handler {
            case HelpHandler =>
              var code, lines := HandleHelp(args);
              r := Reply(code, lines);
            case Foreign(run) =>
              r := run(args);
          }
          out := r.lines;
          if r.code == ResultShowUsage {
            out := out + [e.usage];
          }
        } else {
          ConsistentPathsFit(builtins, helpers);
          var best := FindBest(args);
          out := [Unknown(best)];
        }
      }
      rc := 0;
    }
  }
}

/**
 commands.c: the linked list of command groups, the lookup of a command in it, and the choice of
 the command to run from argv.
 */
module Commands {
  import opened CText
  import opened ByteOrder

  /** struct prereq_params; the counts include the command name. */
  datatype Prereq = Prereq(minArgs: int, maxArgs: int, ioplNeeded: bool)

  /** struct cmd_info; entry stands for the function and its private data. */
  datatype CmdInfo = CmdInfo(name: cstring, params: Option<Prereq>, entry: nat)

  // ----- First match in a list of commands

  function Find(cmds: seq<CmdInfo>, name: string): Option<CmdInfo> {
    if cmds == [] then None
    else if name == cmds[0].name then Some(cmds[0])
    else Find(cmds[1..], name)
  }

  predicate Registered(cmds: seq<CmdInfo>, name: string) {
    exists i :: 0 <= i < |cmds| && cmds[i].name == name
  }

  /** A lookup fails exactly when no command has the name, and otherwise gives the earliest one. */
  lemma {:induction false} FindIsFirst(cmds: seq<CmdInfo>, name: string)
    ensures Find(cmds, name).Some? <==> Registered(cmds, name)
    ensures Find(cmds, name).Some? ==>
              exists i :: 0 <= i < |cmds| && Find(cmds, name) == Some(cmds[i]) && cmds[i].name == name
                          && forall k :: 0 <= k < i ==> cmds[k].name != name
  {
    if cmds != [] && name != cmds[0].name {
      FindIsFirst(cmds[1..], name);
      if Find(cmds[1..], name).Some? {
        var i :| 0 <= i < |cmds[1..]| && Find(cmds, name) == Some(cmds[1..][i]) && cmds[1..][i].name == name
                 && forall k :: 0 <= k < i ==> cmds[1..][k].name != name;
        assert cmds[i + 1].name == name;
        forall k | 0 <= k < i + 1 ensures cmds[k].name != name {
          if k > 0 { assert cmds[k] == cmds[1..][k - 1]; }
        }
      } else {
        forall i | 0 <= i < |cmds| ensures cmds[i].name != name {
          if i > 0 { assert cmds[i] == cmds[1..][i - 1]; }
        }
      }
    }
  }

  lemma {:induction false} FindAppend(a: seq<CmdInfo>, b: seq<CmdInfo>, name: string)
    ensures Find(a + b, name) == if Find(a, name).Some? then Find(a, name) else Find(b, name)
  {
    if a == [] {
      assert a + b == b;
    } else {
      assert (a + b)[1..] == a[1..] + b;
      FindAppend(a[1..], b, name);
    }
  }

  // ----- The list of groups

  class CmdGroup {
    const name: cstring
    const commands: seq<CmdInfo>
    var next: CmdGroup?

    constructor (name: cstring, commands: seq<CmdInfo>)
      ensures this.name == name && this.commands == commands && next == null
    {
      this.name, this.commands, next := name, commands, null;
    }
  }

  function AllCommands(groups: seq<CmdGroup>): seq<CmdInfo> {
    if groups == [] then [] else groups[0].commands + AllCommands(groups[1..])
  }

  predicate Distinct<T(==)>(s: seq<T>) {
    forall i, j :: 0 <= i < j < |s| ==> s[i] != s[j]
  }

  /** What follows element i of a list of groups. */
  function After(groups: seq<CmdGroup>, i: nat, last: CmdGroup?): CmdGroup? {
    if i + 1 < |groups| then groups[i + 1] else last
  }

  /** Following next from head visits exactly the groups, each once, and ends. */
  ghost predicate Chain(head: CmdGroup?, groups: seq<CmdGroup>)
    reads groups
  {
    && (if groups == [] then head == null else head == groups[0])
    && (forall i :: 0 <= i < |groups| ==> groups[i].next == After(groups, i, null))
    && Distinct(groups)
  }

  /** Following next from head comes round to head again. */
  ghost predicate Cycle(head: CmdGroup?, round: seq<CmdGroup>)
    reads round
  {
    && round != [] && head == round[0]
    && forall i :: 0 <= i < |round| ==> round[i].next == After(round, i, head)
  }

  /** A list that comes round again has no end: it is no chain of any groups. */
  lemma CycleIsNoChain(head: CmdGroup?, round: seq<CmdGroup>, groups: seq<CmdGroup>)
    requires Cycle(head, round)
    ensures !Chain(head, groups)
  {
    if Chain(head, groups) {
      StaysOnCycle(head, round, groups, |groups| - 1);
      assert false;
    }
  }

  lemma {:induction false} StaysOnCycle(head: CmdGroup?, round: seq<CmdGroup>, groups: seq<CmdGroup>, k: nat)
    requires Cycle(head, round) && Chain(head, groups) && k < |groups|
    ensures groups[k] in round && groups[k].next != null
    decreases k
  {
    if k > 0 {
      StaysOnCycle(head, round, groups, k - 1);
      var i :| 0 <= i < |round| && round[i] == groups[k - 1];
      assert groups[k] == After(groups, k - 1, null) == groups[k - 1].next == After(round, i, head);
    }
  }

  class Registry {
    var groupHead: CmdGroup?
    /** The registered groups, newest first. */
    ghost var groups: seq<CmdGroup>

    ghost predicate Valid()
      reads this, groups
    {
      Chain(groupHead, groups)
    }

    constructor ()
      ensures Valid() && groups == []
    {
      groupHead, groups := null, [];
    }

    /** The list stays a list exactly when the group was not in it already; registering a group
        again closes a cycle. */
    method RegisterCommandGroup(group: CmdGroup) returns (rc: int, ghost round: seq<CmdGroup>)
      requires Valid()
      modifies this, group`next
      ensures rc == 0 && groupHead == group && group.next == old(groupHead)
      ensures group !in old(groups) ==> Valid() && groups == [group] + old(groups)
      ensures group in old(groups) ==> Cycle(groupHead, round)
    {
      round := [];
      if group in groups {
        ghost var i :| 0 <= i < |groups| && groups[i] == group;
        round := [group] + groups[..i];
      }
      group.next := groupHead;
      groupHead := group;
      groups := [group] + groups;
      rc := 0;
    }

    /** The constructor functions that run before main register one group each. */
    method RegisterAll(registrations: seq<CmdGroup>)
      requires Valid() && groups == [] && Distinct(registrations)
      modifies this, set g | g in registrations
      ensures Valid() && groups == Reverse(registrations)
    {
      hide Reverse, Distinct;
      var i := 0;
      assert registrations[..0] == [];
      while i < |registrations|
        invariant 0 <= i <= |registrations|
        invariant Valid() && groups == Reverse(registrations[..i])
      {
        RegisterStep(registrations, i);
        var _, _ := RegisterCommandGroup(registrations[i]);
        i := i + 1;
      }
      assert registrations[..i] == registrations;
    }

    method LocateCommand(cmd: cstring) returns (r: Option<CmdInfo>)
      requires Valid()
      ensures r == Find(AllCommands(groups), cmd)
    {
      var group := groupHead;
      ghost var k := 0;
      while group != null
        invariant 0 <= k <= |groups|
        invariant group == if k < |groups| then groups[k] else null
        invariant Find(AllCommands(groups), cmd) == Find(AllCommands(groups[k..]), cmd)
        decreases |groups| - k
      {
        ghost var rest := AllCommands(groups[k + 1..]);
        assert groups[k..][0] == group && groups[k..][1..] == groups[k + 1..];
        var i := 0;
        while i < |group.commands|
          invariant 0 <= i <= |group.commands|
          invariant Find(AllCommands(groups), cmd) == Find(group.commands[i..] + rest, cmd)
        {
          if cmd == group.commands[i].name {
            return Some(group.commands[i]);
          }
          assert (group.commands[i..] + rest)[1..] == group.commands[i + 1..] + rest;
          i := i + 1;
        }
        assert group.commands[i..] + rest == rest;
        assert group.next == After(groups, k, null);
        group := group.next;
        k := k + 1;
      }
      r := None;
    }

    /** run_command up to the call of the entry point or the fallback. */
    method RunCommand(argv: seq<cstring>, iopl: bool) returns (a: Action)
      requires Valid() && |argv| >= 1
      ensures a == Dispatch(AllCommands(groups), argv, iopl)
    {
      hide Find, AllCommands, PrereqsMet, Chain;
      if |argv| > 1 {
        var found := LocateCommand(argv[1]);
        if found.Some? {
          a := Start(found.value, argv[1..], iopl);
          return;
        }
      }
      var slash := StrRChr(argv[0], '/');
      var cmdName: cstring := if slash < 0 then argv[0] else argv[0][slash + 1..];
      var found := LocateCommand(cmdName);
      if found.Some? {
        a := Start(found.value, argv, iopl);
      } else {
        a := Fallback(argv);
      }
    }
  }

  /** The next registration is new and comes first. */
  lemma RegisterStep(s: seq<CmdGroup>, i: nat)
    requires Distinct(s) && i < |s|
    ensures s[i] !in Reverse(s[..i])
    ensures Reverse(s[..i + 1]) == [s[i]] + Reverse(s[..i])
  {
    assert s[..i + 1] == s[..i] + [s[i]];
    ReverseSnoc(s[..i], s[i]);
    var back := Reverse(s[..i]);
    forall k | 0 <= k < |back| ensures back[k] != s[i] {
      assert back[k] == s[i - 1 - k];
    }
  }

  lemma {:induction false} ReverseSnoc<T>(s: seq<T>, x: T)
    ensures Reverse(s + [x]) == [x] + Reverse(s)
  {
  }

  /** A group registered twice in a row is its own successor. */
  method RegisterTwice(group: CmdGroup) returns (registry: Registry)
    modifies group
    ensures registry.groupHead == group && group.next == group
    ensures Cycle(registry.groupHead, [group])
  {
    registry := new Registry();
    var _, _ := registry.RegisterCommandGroup(group);
    var _, _ := registry.RegisterCommandGroup(group);
  }

  /** A newer group hides the commands of the same name in older ones. */
  lemma NewestGroupFirst(group: CmdGroup, older: seq<CmdGroup>, name: string)
    ensures Find(AllCommands([group] + older), name)
         == if Registered(group.commands, name) then Find(group.commands, name) else Find(AllCommands(older), name)
  {
    assert ([group] + older)[1..] == older;
    FindAppend(group.commands, AllCommands(older), name);
    FindIsFirst(group.commands, name);
  }

  // ----- Dispatch

  /** strrchr, with -1 for NULL. */
  function StrRChr(s: string, c: char): (i: int)
    ensures -1 <= i < |s|
    ensures i >= 0 ==> s[i] == c
    ensures forall k :: i < k < |s| ==> s[k] != c
  {
    if s == "" then -1 else if s[|s| - 1] == c then |s| - 1 else StrRChr(s[..|s| - 1], c)
  }

  function Basename(path: string): string {
    path[StrRChr(path, '/') + 1..]
  }

  datatype Action = Entry(cmd: CmdInfo, argv: seq<cstring>) | Refused | Fallback(argv: seq<cstring>)

  /** check_prereqs; iopl tells whether the privilege level can be had. */
  predicate PrereqsMet(params: Option<Prereq>, argc: nat, iopl: bool) {
    params.Some? ==>
      params.value.minArgs <= argc <= params.value.maxArgs && (params.value.ioplNeeded ==> iopl)
  }

  function Start(cmd: CmdInfo, argv: seq<cstring>, iopl: bool): Action {
    if PrereqsMet(cmd.params, |argv|, iopl) then Entry(cmd, argv) else Refused
  }

  datatype Choice = Chosen(cmd: CmdInfo, argv: seq<cstring>) | NoCommand

  function Choose(cmds: seq<CmdInfo>, argv: seq<cstring>): Choice
    requires |argv| >= 1
  {
    if |argv| > 1 && Find(cmds, argv[1]).Some? then Chosen(Find(cmds, argv[1]).value, argv[1..])
    else if Find(cmds, Basename(argv[0])).Some? then Chosen(Find(cmds, Basename(argv[0])).value, argv)
    else NoCommand
  }

  function Dispatch(cmds: seq<CmdInfo>, argv: seq<cstring>, iopl: bool): Action
    requires |argv| >= 1
  {
    match Choose(cmds, argv)
    case Chosen(cmd, args) => Start(cmd, args, iopl)
    case NoCommand => Fallback(argv)
  }

  /** A chosen command is entered with its arguments exactly when it has no prerequisites, or the
      argument count lies within both bounds and the privilege level, if it is needed, can be had;
      otherwise it is refused.  The first argument, when it is a command, is chosen before the last
      name of the program, and the fallback gets all of argv. */
  lemma DispatchDecides(cmds: seq<CmdInfo>, argv: seq<cstring>, iopl: bool)
    requires |argv| >= 1
    ensures var byArgument := |argv| > 1 && Registered(cmds, argv[1]);
            var name, args := if byArgument then argv[1] else Basename(argv[0]), if byArgument then argv[1..] else argv;
            if !Registered(cmds, name) then Dispatch(cmds, argv, iopl) == Fallback(argv)
            else
              && Find(cmds, name).Some?
              && var c := Find(cmds, name).value;
                 var runs := || c.params == None
                             || (&& c.params.value.minArgs <= |args| && |args| <= c.params.value.maxArgs
                                 && (iopl || !c.params.value.ioplNeeded));
                 Dispatch(cmds, argv, iopl) == if runs then Entry(c, args) else Refused
  {
    if |argv| > 1 { FindIsFirst(cmds, argv[1]); }
    FindIsFirst(cmds, Basename(argv[0]));
  }

  /** A command with a fixed number of arguments, called with that number, with one more, and by its
      own name. */
  lemma DispatchExample(argv: seq<cstring>, more: seq<cstring>, link: seq<cstring>)
    requires argv == ["iotools", "not", "0x5"] && more == argv + ["0x6"] && link == ["sbin/not", "0x5"]
    ensures var c := CmdInfo("not", Some(Prereq(2, 2, false)), 0);
            && Dispatch([c], argv, false) == Entry(c, ["not", "0x5"])
            && Dispatch([c], more, false) == Refused
            && Dispatch([c], link, false) == Entry(c, link)
            && Dispatch([c], ["iotools"], false) == Fallback(["iotools"])
  {
    hide Dispatch, Find, Basename;
    var c := CmdInfo("not", Some(Prereq(2, 2, false)), 0);
    OneCommand(c, argv, false);
    OneCommand(c, more, false);
    OneCommand(c, link, false);
    OneCommand(c, ["iotools"], false);
    assert argv[1] == "not" && more[1] == "not" && link[1] == "0x5";
    assert argv[1..] == ["not", "0x5"] && |more[1..]| == 3;
    BasenameOf("sbin", "not");
    assert "sbin" + "/" + "not" == "sbin/not";
    NoSlash("iotools");
  }

  lemma OneCommand(c: CmdInfo, argv: seq<cstring>, iopl: bool)
    requires |argv| >= 1
    ensures Dispatch([c], argv, iopl)
         == if |argv| > 1 && argv[1] == c.name then Start(c, argv[1..], iopl)
            else if Basename(argv[0]) == c.name then Start(c, argv, iopl) else Fallback(argv)
  {
    hide Start, Basename, Find;
    if |argv| > 1 { FindOne(c, argv[1]); }
    FindOne(c, Basename(argv[0]));
  }

  lemma FindOne(c: CmdInfo, name: string)
    ensures Find([c], name) == if name == c.name then Some(c) else None
  {
    assert [c][1..] == [];
  }

  lemma NoSlash(name: string)
    requires forall i :: 0 <= i < |name| ==> name[i] != '/'
    ensures Basename(name) == name
  {
  }

  lemma BasenameOf(dir: string, name: string)
    requires forall i :: 0 <= i < |name| ==> name[i] != '/'
    ensures Basename(dir + "/" + name) == name
  {
    var path := dir + "/" + name;
    var i := StrRChr(path, '/');
    assert path[|dir|] == '/';
    assert forall k :: |dir| < k < |path| ==> path[k] == name[k - |dir| - 1];
    assert path[|dir| + 1..] == name;
  }

  /** A command called through a link and the same command called by name through the tool reach the
      same entry with the same argument count and arguments exactly when the first argument, if
      there is one, is not a command itself. */
  lemma LinkAndToolAgreeIff(cmds: seq<CmdInfo>, link: cstring, tool: cstring, name: cstring, xs: seq<cstring>)
    requires Registered(cmds, name) && Basename(link) == name
    ensures Find(cmds, name).Some?
    ensures var viaTool, viaLink := Choose(cmds, [tool, name] + xs), Choose(cmds, [link] + xs);
            && viaTool == Chosen(Find(cmds, name).value, [name] + xs)
            && (viaLink.Chosen? && viaLink.cmd == viaTool.cmd
                && |viaLink.argv| == |viaTool.argv| && viaLink.argv[1..] == viaTool.argv[1..]
                <==> xs == [] || !Registered(cmds, xs[0]))
  {
    var byTool, byLink := [tool, name] + xs, [link] + xs;
    FindIsFirst(cmds, name);
    assert byTool[1] == name && byTool[1..] == [name] + xs;
    assert byLink[0] == link && byLink[1..] == xs && ([name] + xs)[1..] == xs;
    if xs != [] {
      FindIsFirst(cmds, xs[0]);
      assert byLink[1] == xs[0];
    }
  }

  /** The fallback is taken exactly when neither the first argument nor the name the program was
      called by is a command; an entry point with prerequisites only ever sees an argument count
      within its bounds. */
  lemma DispatchOutcomes(cmds: seq<CmdInfo>, argv: seq<cstring>, iopl: bool)
    requires |argv| >= 1
    ensures Dispatch(cmds, argv, iopl).Fallback? <==>
              (|argv| == 1 || !Registered(cmds, argv[1])) && !Registered(cmds, Basename(argv[0]))
    ensures var a := Dispatch(cmds, argv, iopl);
            a.Entry? ==>
              && (exists i :: 0 <= i < |cmds| && cmds[i] == a.cmd)
              && (a.argv == argv || a.argv == argv[1..])
              && (a.cmd.params.Some? ==> a.cmd.params.value.minArgs <= |a.argv| <= a.cmd.params.value.maxArgs)
  {
    if |argv| > 1 { FindIsFirst(cmds, argv[1]); }
    FindIsFirst(cmds, Basename(argv[0]));
  }
}

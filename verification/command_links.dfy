/**
 The symbolic links of commands.c: one for every registered command, beside the binary.
 */
module CommandLinks {
  import opened CText
  import opened Commands

  const FILENAME_MAX := 4096

  datatype FileEntry = File | Link(target: string)

  type Entries = map<string, FileEntry>

  /** Path names and what they stand for; nothing can be created or removed at a locked path. */
  class FileSystem {
    var entries: Entries
    const locked: set<string>

    constructor (entries: Entries, locked: set<string>)
      ensures this.entries == entries && this.locked == locked
    {
      this.entries, this.locked := entries, locked;
    }

    method Symlink(target: string, path: string) returns (rc: int)
      modifies this`entries
      ensures rc == if path in old(entries) || path in locked then -1 else 0
      ensures entries == if rc == 0 then old(entries)[path := Link(target)] else old(entries)
    {
      if path in entries || path in locked { return -1; }
      entries := entries[path := Link(target)];
      rc := 0;
    }

    method Unlink(path: string) returns (rc: int)
      modifies this`entries
      ensures rc == if path !in old(entries) || path in locked then -1 else 0
      ensures entries == if rc == 0 then old(entries) - {path} else old(entries)
    {
      if path !in entries || path in locked { return -1; }
      entries := entries - {path};
      rc := 0;
    }
  }

  // ----- Names

  /** locate_path_of_binary: the directory and the last name of an absolute path. */
  function DirOf(exe: string): string
    requires StrRChr(exe, '/') >= 0
  {
    exe[..StrRChr(exe, '/')]
  }

  /** A path with a slash is the directory, a slash and the last name, which has no slash in it. */
  lemma PathParts(exe: string)
    requires StrRChr(exe, '/') >= 0
    ensures exe == DirOf(exe) + "/" + Basename(exe) && '/' !in Basename(exe)
  {
    var i := StrRChr(exe, '/');
    var name := exe[i + 1..];
    assert forall k :: 0 <= k < |name| ==> name[k] == exe[i + 1 + k];
    assert exe == exe[..i] + "/" + name;
  }

  /** And any such path comes apart into just these. */
  lemma PathOf(dir: string, bin: string)
    requires '/' !in bin
    ensures var exe := dir + "/" + bin;
            StrRChr(exe, '/') >= 0 && DirOf(exe) == dir && Basename(exe) == bin
  {
    var exe := dir + "/" + bin;
    assert exe[|dir|] == '/';
    assert forall k :: |dir| < k < |exe| ==> exe[k] == bin[k - |dir| - 1];
    assert StrRChr(exe, '/') == |dir|;
    assert exe[..|dir|] == dir && exe[|dir| + 1..] == bin;
  }

  /** build_symlink_name: snprintf cuts the path to its buffer. */
  function LinkName(dir: string, name: string): (path: string)
    ensures |path| < FILENAME_MAX
  {
    var full := dir + "/" + name;
    if |full| < FILENAME_MAX then full else full[..FILENAME_MAX - 1]
  }

  function LinkNames(cmds: seq<CmdInfo>, dir: string): set<string> {
    set c | c in cmds :: LinkName(dir, c.name)
  }

  /** The entries after links to the binary were made at every free path of a set. */
  function Made(entries: Entries, paths: set<string>, binary: string): Entries {
    (map p | p in paths :: Link(binary)) + entries
  }

  // ----- The two commands

  /** The commands before position i of group k. */
  function Before(groups: seq<CmdGroup>, k: nat, i: nat): seq<CmdInfo>
    requires k < |groups| && i <= |groups[k].commands|
  {
    AllCommands(groups[..k]) + groups[k].commands[..i]
  }

  lemma BeforeNext(groups: seq<CmdGroup>, k: nat, i: nat)
    requires k < |groups| && i < |groups[k].commands|
    ensures Before(groups, k, i + 1) == Before(groups, k, i) + [groups[k].commands[i]]
  {
    assert groups[k].commands[..i + 1] == groups[k].commands[..i] + [groups[k].commands[i]];
  }

  lemma {:induction false} AllCommandsSnoc(groups: seq<CmdGroup>, group: CmdGroup)
    ensures AllCommands(groups + [group]) == AllCommands(groups) + group.commands
  {
    if groups == [] {
      assert AllCommands([group]) == group.commands + AllCommands([]);
    } else {
      assert (groups + [group])[1..] == groups[1..] + [group];
      AllCommandsSnoc(groups[1..], group);
    }
  }

  lemma BeforeGroupEnd(groups: seq<CmdGroup>, k: nat)
    requires k < |groups|
    ensures Before(groups, k, |groups[k].commands|) == AllCommands(groups[..k + 1])
    ensures Before(groups, k, 0) == AllCommands(groups[..k])
  {
    assert groups[..k + 1] == groups[..k] + [groups[k]];
    AllCommandsSnoc(groups[..k], groups[k]);
    assert groups[k].commands[..|groups[k].commands|] == groups[k].commands;
  }

  lemma LinkNamesSnoc(cmds: seq<CmdInfo>, c: CmdInfo, dir: string)
    ensures LinkNames(cmds + [c], dir) == LinkNames(cmds, dir) + {LinkName(dir, c.name)}
  {
    forall p | p in LinkNames(cmds, dir) + {LinkName(dir, c.name)} ensures p in LinkNames(cmds + [c], dir) {
      if p == LinkName(dir, c.name) {
        assert c in cmds + [c];
      } else {
        var d :| d in cmds && p == LinkName(dir, d.name);
        assert d in cmds + [c];
      }
    }
  }

  lemma MadeNothing(entries: Entries, locked: set<string>, dir: string, binary: string)
    ensures Made(entries, LinkNames(AllCommands([]), dir) - locked, binary) == entries
  {
  }

  lemma MadeStep(entries: Entries, paths: set<string>, path: string, binary: string, locked: set<string>)
    ensures var made := Made(entries, paths - locked, binary);
            Made(entries, paths + {path} - locked, binary)
            == if path in made || path in locked then made else made[path := Link(binary)]
  {
  }

  method MakeCommandLinks(registry: Registry, exe: cstring, fs: FileSystem) returns (rc: int)
    requires registry.Valid() && StrRChr(exe, '/') >= 0
    modifies fs`entries
    ensures rc == 0
    ensures var paths := LinkNames(AllCommands(registry.groups), DirOf(exe)) - fs.locked;
            fs.entries == Made(old(fs.entries), paths, Basename(exe))
    ensures forall dir: string, bin: string :: exe == dir + "/" + bin && '/' !in bin ==>
              var paths := LinkNames(AllCommands(registry.groups), dir) - fs.locked;
              fs.entries == Made(old(fs.entries), paths, bin)
  {
    hide LinkName, Made, LinkNames, Before, AllCommands;
    MadeNothing(fs.entries, fs.locked, DirOf(exe), Basename(exe));
    var dir, binName := DirOf(exe), Basename(exe);
    ghost var groups := registry.groups;
    var group := registry.groupHead;
    ghost var k := 0;
    assert groups[..0] == [];
    while group != null
      invariant 0 <= k <= |groups|
      invariant group == if k < |groups| then groups[k] else null
      invariant fs.entries == Made(old(fs.entries), LinkNames(AllCommands(groups[..k]), dir) - fs.locked, binName)
      decreases |groups| - k
    {
      BeforeGroupEnd(groups, k);
      var i := 0;
      while i < |group.commands|
        invariant 0 <= i <= |group.commands|
        invariant fs.entries == Made(old(fs.entries), LinkNames(Before(groups, k, i), dir) - fs.locked, binName)
      {
        BeforeNext(groups, k, i);
        LinkNamesSnoc(Before(groups, k, i), group.commands[i], dir);
        var linkName := LinkName(dir, group.commands[i].name);
        MadeStep(old(fs.entries), LinkNames(Before(groups, k, i), dir), linkName, binName, fs.locked);
        var failed := fs.Symlink(binName, linkName);
        i := i + 1;
      }
      assert group.next == After(groups, k, null);
      group := group.next;
      k := k + 1;
    }
    assert groups[..k] == groups;
    forall dir: string, bin: string | exe == dir + "/" + bin && '/' !in bin
      ensures DirOf(exe) == dir && Basename(exe) == bin
    {
      PathOf(dir, bin);
    }
    rc := 0;
  }

  lemma NoLinkNames(dir: string)
    ensures LinkNames(AllCommands([]), dir) == {}
  {
  }

  method CleanCommandLinks(registry: Registry, exe: cstring, fs: FileSystem) returns (rc: int)
    requires registry.Valid() && StrRChr(exe, '/') >= 0
    modifies fs`entries
    ensures rc == 0
    ensures fs.entries == old(fs.entries) - (LinkNames(AllCommands(registry.groups), DirOf(exe)) - fs.locked)
    ensures forall dir: string, bin: string :: exe == dir + "/" + bin && '/' !in bin ==>
              fs.entries == old(fs.entries) - (LinkNames(AllCommands(registry.groups), dir) - fs.locked)
  {
    hide LinkName, LinkNames, Before, AllCommands;
    assert LinkNames(AllCommands([]), DirOf(exe)) == {} by { NoLinkNames(DirOf(exe)); }
    var dir := DirOf(exe);
    ghost var groups := registry.groups;
    var group := registry.groupHead;
    ghost var k := 0;
    assert groups[..0] == [];
    while group != null
      invariant 0 <= k <= |groups|
      invariant group == if k < |groups| then groups[k] else null
      invariant fs.entries == old(fs.entries) - (LinkNames(AllCommands(groups[..k]), dir) - fs.locked)
      decreases |groups| - k
    {
      BeforeGroupEnd(groups, k);
      var i := 0;
      while i < |group.commands|
        invariant 0 <= i <= |group.commands|
        invariant fs.entries == old(fs.entries) - (LinkNames(Before(groups, k, i), dir) - fs.locked)
      {
        BeforeNext(groups, k, i);
        LinkNamesSnoc(Before(groups, k, i), group.commands[i], dir);
        var linkName := LinkName(dir, group.commands[i].name);
        var failed := fs.Unlink(linkName);
        i := i + 1;
      }
      assert group.next == After(groups, k, null);
      group := group.next;
      k := k + 1;
    }
    assert groups[..k] == groups;
    forall dir: string, bin: string | exe == dir + "/" + bin && '/' !in bin
      ensures DirOf(exe) == dir && Basename(exe) == bin
    {
      PathOf(dir, bin);
    }
    rc := 0;
  }

  // ----- Where the links are

  /** The link of a command lies beside the binary, under the name of the command; a path of 4096
      characters or more loses its end. */
  lemma LinkNamesBeside(cmds: seq<CmdInfo>, dir: string, path: string)
    ensures path in LinkNames(cmds, dir) <==>
              exists c :: c in cmds && (if |dir| + 1 + |c.name| <= 4095 then path == dir + "/" + c.name
                                        else path == (dir + "/" + c.name)[..4095])
  {
    if path in LinkNames(cmds, dir) {
      var c :| c in cmds && path == LinkName(dir, c.name);
    }
  }

  // ----- Making and cleaning together

  /** Making links adds exactly the missing ones, each to the binary, touches nothing that was there,
      and does nothing the second time. */
  lemma MadeLinks(entries: Entries, paths: set<string>, binary: string)
    ensures Made(entries, paths, binary).Keys == entries.Keys + paths
    ensures forall p :: p in entries ==> Made(entries, paths, binary)[p] == entries[p]
    ensures forall p :: p in paths && p !in entries ==> Made(entries, paths, binary)[p] == Link(binary)
    ensures Made(Made(entries, paths, binary), paths, binary) == Made(entries, paths, binary)
  {
  }

  /** Cleaning after making leaves what was there before except for the link paths; that is the old
      state itself exactly when no link path was taken before. */
  lemma CleanUndoesMakeIff(entries: Entries, paths: set<string>, binary: string)
    ensures Made(entries, paths, binary) - paths == entries - paths
    ensures Made(entries, paths, binary) - paths == entries <==> entries.Keys !! paths
  {
    assert Made(entries, paths, binary) - paths == entries - paths;
    if entries.Keys !! paths {
      assert entries - paths == entries;
    } else {
      var p :| p in entries && p in paths;
      assert p !in entries - paths;
    }
  }

  /** A plain file with the name of a command is taken for a link and lost. */
  lemma CleanLosesFile()
    ensures var entries: Entries := map["/bin/or" := File];
            var paths := LinkNames([CmdInfo("or", None, 0)], "/bin");
            && paths == {"/bin/or"}
            && Made(entries, paths, "iotools") - paths == map[] != entries
  {
    var c := CmdInfo("or", None, 0);
    assert [c][0] == c && LinkName("/bin", "or") == "/bin/or";
    CleanUndoesMakeIff(map["/bin/or" := File], {"/bin/or"}, "iotools");
  }

  // ----- Links and dispatch

  /** The last name of a made link is the command name exactly when the name has no slash in it and
      the path fits its buffer. */
  lemma LinkNameRecoversIff(dir: string, name: string)
    requires |dir| < FILENAME_MAX - 1
    ensures Basename(LinkName(dir, name)) == name
       <==> (forall i :: 0 <= i < |name| ==> name[i] != '/') && |dir| + 1 + |name| < FILENAME_MAX
  {
    var full, path := dir + "/" + name, LinkName(dir, name);
    var s := StrRChr(path, '/');
    assert path[|dir|] == '/' && s >= |dir|;
    assert forall k :: |dir| < k < |full| ==> full[k] == name[k - |dir| - 1];
    assert |Basename(path)| == |path| - s - 1;
    if |full| >= FILENAME_MAX {
      assert |Basename(path)| < |name|;
    } else if forall i :: 0 <= i < |name| ==> name[i] != '/' {
      BasenameOf(dir, name);
    } else {
      var i :| 0 <= i < |name| && name[i] == '/';
      assert path[|dir| + 1 + i] == '/';
      assert |Basename(path)| < |name|;
    }
  }

  /** Running a made link, alone or with a first argument that is no command, chooses the command
      that a lookup of its name finds. */
  lemma MadeLinkDispatches(cmds: seq<CmdInfo>, c: CmdInfo, dir: string, link: cstring, xs: seq<cstring>)
    requires c in cmds && link == LinkName(dir, c.name)
    requires (forall i :: 0 <= i < |c.name| ==> c.name[i] != '/') && |dir| + 1 + |c.name| < FILENAME_MAX
    requires xs == [] || !Registered(cmds, xs[0])
    ensures link in LinkNames(cmds, dir)
    ensures Find(cmds, c.name).Some? && Choose(cmds, [link] + xs) == Chosen(Find(cmds, c.name).value, [link] + xs)
  {
    BasenameOf(dir, c.name);
    FindIsFirst(cmds, c.name);
    assert ([link] + xs)[0] == link;
    if xs != [] {
      assert ([link] + xs)[1] == xs[0];
      FindIsFirst(cmds, xs[0]);
    }
  }
}

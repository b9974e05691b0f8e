/**
 * SimpleFileSystem: an in-memory inode tree with a working directory, an id
 * counter and a command history, persisted as one byte string. Each shell
 * command is a method that updates the object's fields in place; the pure
 * semantics of each update lives in StoreOps and the persisted format in
 * Codec.
 */
module FileSystem {
  import opened Wrappers
  import opened LittleEndian
  import opened INodeTree
  import opened StoreOps
  import opened Codec
  import opened CommandHistory

  /** Why a command was refused. Each refusal leaves the file system unchanged. */
  datatype FsError = AlreadyExists | NotFound | NotEmpty | InvalidFormat | BadUsage | UnknownCommand

  datatype Outcome = Ok | Fail(error: FsError)

  /** A command line after splitting into words; `CdCmd(None)` is `cd` without an argument. */
  datatype Command =
    | MkdirCmd(name: string)
    | TouchCmd(name: string)
    | LsCmd(recursive: bool)
    | CdCmd(path: Option<string>)
    | RmCmd(name: string)
    | MvCmd(from: string, to: string)
    | ChmodCmd(name: string, mode: string)
    | FindCmd(query: string)
    | HistoryCmd
    | PwdCmd
    | MissingArgument
    | Unrecognized
    | Blank
  {
    /** The commands that only report and change nothing but the history. */
    predicate IsQuery()
    {
      LsCmd? || FindCmd? || HistoryCmd? || PwdCmd? || MissingArgument? || Unrecognized? || Blank?
    }
  }

  /** `q` occurs in `s` as a contiguous substring (the empty string occurs in every string). */
  predicate Contains(s: string, q: string)
  {
    q <= s || (s != [] && Contains(s[1..], q))
  }

  /** `q` sits in `s` starting at position `i`. */
  predicate OccursAt(s: string, q: string, i: int)
  {
    0 <= i && i + |q| <= |s| && s[i..i + |q|] == q
  }

  /** Contains holds exactly when `q` sits at some position of `s`. */
  lemma {:induction false} ContainsIffOccurs(s: string, q: string)
    ensures Contains(s, q) <==> exists i :: OccursAt(s, q, i)
  {
    if s == [] {
      if q == [] {
        assert OccursAt(s, q, 0);
      }
      if exists i :: OccursAt(s, q, i) {
        var i :| OccursAt(s, q, i);
        assert q == [];
      }
    } else {
      ContainsIffOccurs(s[1..], q);
      if q <= s {
        assert s[0..|q|] == q;
        assert OccursAt(s, q, 0);
      } else if Contains(s[1..], q) {
        var i :| OccursAt(s[1..], q, i);
        assert s[i + 1..i + 1 + |q|] == q;
        assert OccursAt(s, q, i + 1);
      }
      if exists i :: OccursAt(s, q, i) {
        var i :| OccursAt(s, q, i);
        if i == 0 {
          assert q <= s;
        } else {
          assert s[1..][i - 1..i - 1 + |q|] == q;
          assert OccursAt(s[1..], q, i - 1);
        }
      }
    }
  }

  /** The elements of `s` in the opposite order. */
  function Reversed<T>(s: seq<T>): (r: seq<T>)
    ensures |r| == |s| && forall i | 0 <= i < |s| :: r[i] == s[|s| - 1 - i]
  {
    if s == [] then [] else [s[|s| - 1]] + Reversed(s[..|s| - 1])
  }

  /** A permission string of the accepted length: three or nine characters. */
  predicate ValidMode(mode: string)
  {
    |mode| == 9 || |mode| == 3
  }

  class SimpleFileSystem {
    /** Every inode, keyed by id. */
    var inodes: Store
    /** The working directory. */
    var current: int
    /** The id the next created entry receives. */
    var nextId: int
    /** The recorded command lines, oldest first. */
    var history: seq<string>

    /**
     * The object invariant: a valid tree, a working directory that is a
     * stored directory, every id below the counter, a bounded history.
     */
    ghost predicate Valid()
      reads this
    {
      && ValidStore(inodes)
      && current in inodes && inodes[current].isDirectory
      && (forall k | k in inodes :: k < nextId)
      && |history| <= HistoryLimit
    }

    /** The position among the working directory's children of the first one named `name`. */
    function Lookup(name: string, dirOnly: bool): Option<nat>
      reads this
      requires current in inodes
    {
      FirstMatch(inodes, inodes[current].children, name, dirOnly)
    }

    /**
     * Installs the root directory, then loads the persisted file `file`
     * (None when there is no file). A store read from the file that is a
     * valid tree gives a valid file system.
     */
    constructor (file: Option<seq<Byte>>, now: int)
      ensures history == [] && current == RootId
      ensures file.None? ==> inodes == map[RootId := RootINode(now)] && nextId == 1
      ensures file.Some? && DecodeStore(file.value).None? ==> inodes == map[RootId := RootINode(now)] && nextId == 1
      ensures file.Some? && DecodeStore(file.value).Some? ==>
        && inodes == BuildStore(DecodeStore(file.value).value)
        && nextId >= 1 && (forall k | k in inodes :: k < nextId)
        && (nextId == 1 || nextId - 1 in inodes)
      ensures ValidStore(inodes) ==> Valid()
    {
      inodes := map[RootId := RootINode(now)];
      nextId := 1;
      current := RootId;
      history := [];
      new;
      var _ := LoadFromDisk(file);
      if ValidStore(inodes) {
        assert NodeOk(inodes, RootId);
      }
    }

    /**
     * Reads the store back from the persisted bytes: the records replace
     * the whole store, a later record with the same id winning, and the
     * counter is raised above every loaded id. A missing file changes
     * nothing; bytes that end before the last record are refused.
     */
    method LoadFromDisk(file: Option<seq<Byte>>) returns (res: Outcome)
      modifies this
      ensures current == old(current) && history == old(history)
      ensures file.None? ==> res == Ok && inodes == old(inodes) && nextId == old(nextId)
      ensures file.Some? ==> match DecodeStore(file.value)
        case None =>
          res == Fail(InvalidFormat) && inodes == old(inodes) && nextId == old(nextId)
        case Some(records) =>
          && res == Ok
          && inodes == BuildStore(records)
          && nextId >= old(nextId)
          && (forall k | k in inodes :: k < nextId)
          && (nextId == old(nextId) || nextId - 1 in inodes)
    {
      if file.None? {
        return Ok;
      }
      var decoded := DecodeStore(file.value);
      if decoded.None? {
        return Fail(InvalidFormat);
      }
      InstallRecords(decoded.value);
      return Ok;
    }

    /**
     * The read loop of the load routine: clears the store, stores each
     * record under its id in file order, and raises the counter past every
     * id it stores.
     */
    method InstallRecords(records: seq<INode>)
      modifies this
      ensures inodes == BuildStore(records)
      ensures nextId >= old(nextId) && (forall k | k in inodes :: k < nextId)
      ensures nextId == old(nextId) || nextId - 1 in inodes
      ensures current == old(current) && history == old(history)
    {
      inodes := map[];
      var i := 0;
      while i < |records|
        invariant 0 <= i <= |records|
        invariant BuildStore(records) == inodes + BuildStore(records[i..])
        invariant nextId >= old(nextId) && (forall k | k in inodes :: k < nextId)
        invariant nextId == old(nextId) || nextId - 1 in inodes
        invariant current == old(current) && history == old(history)
      {
        var node := records[i];
        LoadStep(records, inodes, i);
        inodes := inodes[node.id := node];
        if node.id >= nextId {
          nextId := node.id + 1;
        }
        i := i + 1;
      }
      assert BuildStore(records[i..]) == map[];
      assert inodes + map[] == inodes;
    }

    /** Writes the store: its size, then every inode in ascending id order. */
    method SaveToDisk() returns (bytes: seq<Byte>)
      requires StorePersistable(inodes)
      ensures bytes == EncodeStore(inodes)
    {
      EncodeStorePending(inodes);
      bytes := EncodeUnsigned(|inodes|, SizeBytes);
      var remaining := inodes.Keys;
      while remaining != {}
        invariant remaining <= inodes.Keys
        invariant bytes + PendingBytes(inodes, remaining) == EncodeStore(inodes)
        decreases |remaining|
      {
        MinExists(remaining);
        var k :| k in remaining && forall j | j in remaining :: k <= j;
        PendingFirst(inodes, remaining, k);
        AppendAssoc(bytes, EncodeINode(inodes[k]), PendingBytes(inodes, remaining - {k}));
        bytes := bytes + EncodeINode(inodes[k]);
        remaining := remaining - {k};
      }
    }

    /** The position among the working directory's children of the first match, by a scan in children order. */
    method FindChild(name: string, dirOnly: bool) returns (r: Option<nat>)
      requires Valid()
      ensures r == Lookup(name, dirOnly)
    {
      ChildrenStored(inodes, current);
      var cs := inodes[current].children;
      var i := 0;
      while i < |cs|
        invariant 0 <= i <= |cs|
        invariant forall j | 0 <= j < i :: !Matches(inodes, cs[j], name, dirOnly)
      {
        var child := inodes[cs[i]];
        if child.name == name && (!dirOnly || child.isDirectory) {
          return Some(i);
        }
        i := i + 1;
      }
      return None;
    }

    /** Creates a fresh entry under the working directory (the shared tail of mkdir and touch). */
    method CreateEntry(name: string, isDirectory: bool, now: int)
      modifies this
      requires Valid() && Lookup(name, false).None?
      ensures Valid()
      ensures current == old(current) && history == old(history)
      ensures nextId == old(nextId) + 1
      ensures inodes == AddChild(old(inodes), current, NewINode(old(nextId), name, isDirectory, current, now), now)
    {
      var id := nextId;
      nextId := nextId + 1;
      var node := NewINode(id, name, isDirectory, current, now);
      AddChildValid(inodes, current, node, now);
      inodes := inodes[current := inodes[current].(children := inodes[current].children + [id])];
      inodes := inodes[id := node];
      inodes := inodes[current := inodes[current].(modificationTime := now)];
    }

    /** mkdir: refuses a name any child already has; otherwise adds an empty directory. */
    method Mkdir(name: string, now: int) returns (res: Outcome)
      modifies this
      requires Valid()
      ensures Valid()
      ensures current == old(current) && history == old(history)
      ensures old(Lookup(name, false)).Some? ==>
        res == Fail(AlreadyExists) && inodes == old(inodes) && nextId == old(nextId)
      ensures old(Lookup(name, false)).None? ==>
        && res == Ok
        && nextId == old(nextId) + 1
        && inodes == AddChild(old(inodes), current, NewINode(old(nextId), name, true, current, now), now)
    {
      var idx := FindChild(name, false);
      if idx.Some? {
        return Fail(AlreadyExists);
      }
      CreateEntry(name, true, now);
      return Ok;
    }

    /** touch: stamps the first child with that name, or else adds an empty file. */
    method Touch(name: string, now: int) returns (res: Outcome)
      modifies this
      requires Valid()
      ensures Valid() && res == Ok
      ensures current == old(current) && history == old(history)
      ensures match old(Lookup(name, false))
        case Some(i) =>
          inodes == Touched(old(inodes), old(inodes[current].children[i]), now) && nextId == old(nextId)
        case None =>
          && nextId == old(nextId) + 1
          && inodes == AddChild(old(inodes), current, NewINode(old(nextId), name, false, current, now), now)
    {
      var idx := FindChild(name, false);
      if idx.Some? {
        var x := inodes[current].children[idx.value];
        TouchedValid(inodes, x, now);
        inodes := inodes[x := inodes[x].(modificationTime := now)];
        return Ok;
      }
      CreateEntry(name, false, now);
      return Ok;
    }

    /**
     * cd: "" stays, "/" goes to the root, ".." to the parent (the root stays
     * put), any other name to the first child directory with that name.
     */
    method Cd(path: string) returns (res: Outcome)
      modifies this
      requires Valid()
      ensures Valid()
      ensures inodes == old(inodes) && nextId == old(nextId) && history == old(history)
      ensures path == "" ==> res == Ok && current == old(current)
      ensures path == "/" ==> res == Ok && current == RootId
      ensures path == ".." ==>
        res == Ok && current == if old(current) == RootId then RootId else old(inodes[current].parent)
      ensures path != "" && path != "/" && path != ".." ==>
        match old(Lookup(path, true))
        case Some(i) => res == Ok && current == old(inodes[current].children[i])
        case None => res == Fail(NotFound) && current == old(current)
    {
      if path == "" {
        return Ok;
      }
      if path == "/" {
        assert NodeOk(inodes, RootId);
        current := RootId;
        return Ok;
      }
      if path == ".." {
        if current != RootId {
          assert NodeOk(inodes, current);
          current := inodes[current].parent;
        }
        return Ok;
      }
      var idx := FindChild(path, true);
      if idx.Some? {
        current := inodes[current].children[idx.value];
        return Ok;
      }
      return Fail(NotFound);
    }

    /**
     * rm: refuses a missing name and a non-empty directory; otherwise
     * unlinks the child from the working directory, erases it and everything
     * below it, and stamps the working directory. The removed id is taken
     * before the erase.
     */
    method Rm(name: string, now: int) returns (res: Outcome)
      modifies this
      requires Valid()
      ensures Valid()
      ensures current == old(current) && nextId == old(nextId) && history == old(history)
      ensures match old(Lookup(name, false))
        case None => res == Fail(NotFound) && inodes == old(inodes)
        case Some(i) =>
          var x := old(inodes[current].children[i]);
          if old(inodes[x].isDirectory) && old(inodes[x].children) != [] then
            res == Fail(NotEmpty) && inodes == old(inodes)
          else
            res == Ok && inodes == RemovedTree(old(inodes), current, i, now)
    {
      var idx := FindChild(name, false);
      if idx.None? {
        return Fail(NotFound);
      }
      var i := idx.value;
      var p := current;
      var x := inodes[p].children[i];
      if inodes[x].isDirectory && inodes[x].children != [] {
        return Fail(NotEmpty);
      }
      ghost var m0 := inodes;
      ParentOutsideSubtree(m0, p, i);
      RemovedTreeValid(m0, p, i, now);
      inodes := inodes[p := inodes[p].(children := EraseAt(inodes[p].children, i))];
      DeleteSubtree(x, m0);
      inodes := inodes[p := inodes[p].(modificationTime := now)];
      return Ok;
    }

    /**
     * The worklist deletion of rm: pops an id, pushes its children when it
     * is a directory, erases it, until the stack is empty. Erases exactly
     * the subtree of `x` in the store `m0` it started from.
     */
    method DeleteSubtree(x: int, ghost m0: Store)
      modifies this`inodes
      requires ValidStore(m0) && x in m0
      requires inodes.Keys == m0.Keys
      requires forall k | k in Subtree(m0, x) :: k in inodes && inodes[k] == m0[k]
      ensures inodes == old(inodes) - Subtree(m0, x)
    {
      ghost var sub := Subtree(m0, x);
      ghost var deleted: set<int> := {};
      var stack := [x];
      StartTraversal(m0, x);
      while stack != []
        invariant Pending(m0, deleted, stack, sub)
        invariant Stored(m0, stack)
        invariant inodes == old(inodes) - deleted
        decreases SizeSum(m0, stack)
      {
        ghost var before := stack;
        var id := stack[|stack| - 1];
        stack := stack[..|stack| - 1];
        ghost var rest := stack;
        assert before == rest + [id];
        PopTop(m0, deleted, rest, id, if m0[id].isDirectory then m0[id].children else [], sub);
        var node := inodes[id];
        var kids := if node.isDirectory then node.children else [];
        stack := PushAll(stack, kids);
        RemoveOneMore(old(inodes), deleted, id);
        inodes := inodes - {id};
        deleted := deleted + {id};
      }
    }

    /**
     * mv: refuses a missing name, and a new name that any child already has
     * (the renamed one included); otherwise renames the child and stamps it
     * and the working directory.
     */
    method Mv(oldName: string, newName: string, now: int) returns (res: Outcome)
      modifies this
      requires Valid()
      ensures Valid()
      ensures current == old(current) && nextId == old(nextId) && history == old(history)
      ensures match old(Lookup(oldName, false))
        case None => res == Fail(NotFound) && inodes == old(inodes)
        case Some(i) =>
          if old(Lookup(newName, false)).Some? then
            res == Fail(AlreadyExists) && inodes == old(inodes)
          else
            res == Ok && inodes == Renamed(old(inodes), current, old(inodes[current].children[i]), newName, now)
    {
      var idx := FindChild(oldName, false);
      if idx.None? {
        return Fail(NotFound);
      }
      var other := FindChild(newName, false);
      if other.Some? {
        return Fail(AlreadyExists);
      }
      var x := inodes[current].children[idx.value];
      RenamedValid(inodes, current, x, newName, now);
      inodes := inodes[x := inodes[x].(name := newName, modificationTime := now)];
      inodes := inodes[current := inodes[current].(modificationTime := now)];
      return Ok;
    }

    /**
     * chmod: refuses a missing name and a mode whose length is neither 3
     * nor 9; otherwise sets the child's permissions and stamps the child.
     */
    method Chmod(name: string, mode: string, now: int) returns (res: Outcome)
      modifies this
      requires Valid()
      ensures Valid()
      ensures current == old(current) && nextId == old(nextId) && history == old(history)
      ensures match old(Lookup(name, false))
        case None => res == Fail(NotFound) && inodes == old(inodes)
        case Some(i) =>
          var x := old(inodes[current].children[i]);
          if ValidMode(mode) then
            res == Ok && inodes == old(inodes)[x := old(inodes[x]).(permissions := mode, modificationTime := now)]
          else
            res == Fail(InvalidFormat) && inodes == old(inodes)
    {
      var idx := FindChild(name, false);
      if idx.None? {
        return Fail(NotFound);
      }
      var x := inodes[current].children[idx.value];
      if ValidMode(mode) {
        ReplaceSameShape(inodes, x, inodes[x].(permissions := mode, modificationTime := now));
        inodes := inodes[x := inodes[x].(permissions := mode, modificationTime := now)];
        return Ok;
      }
      return Fail(InvalidFormat);
    }

    /**
     * find: a worklist search of the working directory's subtree. Reports,
     * each exactly once, every entry of that subtree whose name contains
     * `query`, with its absolute path; `found` says whether there was one.
     */
    method Find(query: string) returns (hits: seq<int>, paths: seq<string>, found: bool)
      requires Valid()
      ensures forall i | 0 <= i < |hits| :: hits[i] in Subtree(inodes, current) && Contains(inodes[hits[i]].name, query)
      ensures forall k | k in Subtree(inodes, current) && Contains(inodes[k].name, query) :: k in hits
      ensures forall i, j | 0 <= i < j < |hits| :: hits[i] != hits[j]
      ensures |paths| == |hits| && forall i | 0 <= i < |hits| :: paths[i] == AbsolutePath(inodes, hits[i])
      ensures found <==> hits != []
    {
      ghost var sub := Subtree(inodes, current);
      ghost var visited: set<int> := {};
      var stack := [current];
      StartTraversal(inodes, current);
      hits, paths, found := [], [], false;
      while stack != []
        invariant Pending(inodes, visited, stack, sub)
        invariant Stored(inodes, stack)
        invariant Reported(inodes, visited, query, hits, paths)
        invariant found <==> hits != []
        decreases SizeSum(inodes, stack)
      {
        ghost var before := stack;
        var id := stack[|stack| - 1];
        stack := stack[..|stack| - 1];
        ghost var rest := stack;
        assert before == rest + [id];
        var node := inodes[id];
        var kids := if node.isDirectory then node.children else [];
        PopTop(inodes, visited, rest, id, kids, sub);
        if Contains(node.name, query) {
          var path := GetAbsolutePath(id);
          ReportHit(inodes, visited, query, hits, paths, id, path);
          hits := hits + [id];
          paths := paths + [path];
          found := true;
        } else {
          ReportMiss(inodes, visited, query, hits, paths, id);
        }
        stack := PushAll(stack, kids);
        visited := visited + {id};
      }
      assert visited == sub;
    }

    /**
     * The absolute path of `id`: collects the names up the parent links to
     * the root, reverses them, and joins them after a leading "/".
     */
    method GetAbsolutePath(id: int) returns (path: string)
      requires ValidStore(inodes) && id in inodes
      ensures path == AbsolutePath(inodes, id)
    {
      if id == RootId {
        return "/";
      }
      var parts: seq<string> := [];
      var cur := id;
      while cur != RootId
        invariant cur in inodes
        invariant PathNames(inodes, id) == PathNames(inodes, cur) + Reversed(parts)
        decreases cur
      {
        PathStep(inodes, id, cur, parts);
        parts := parts + [inodes[cur].name];
        cur := inodes[cur].parent;
      }
      parts := Reversed(parts);
      assert parts == PathNames(inodes, id);
      path := "/";
      for i := 0 to |parts|
        invariant path == "/" + Join(parts[..i])
      {
        JoinStep(parts, i);
        if i != 0 {
          path := path + "/";
        }
        path := path + parts[i];
      }
      assert parts[..|parts|] == parts;
    }

    /** pwd: the absolute path of the working directory. */
    method Pwd() returns (path: string)
      requires Valid()
      ensures path == AbsolutePath(inodes, current)
    {
      path := GetAbsolutePath(current);
    }

    /**
     * ls: without -R, the working directory's children in order; with -R,
     * the depth-first listing of the working directory's subtree, each id
     * with its indentation depth.
     */
    method Ls(recursive: bool) returns (listing: seq<(int, nat)>)
      requires Valid()
      ensures !recursive ==>
        && |listing| == |inodes[current].children|
        && forall i | 0 <= i < |listing| :: listing[i] == (inodes[current].children[i], 0)
      ensures recursive ==> listing == RecursiveList(inodes, current, 0)
    {
      if recursive {
        return RecursiveList(inodes, current, 0);
      }
      var cs := inodes[current].children;
      listing := [];
      for i := 0 to |cs|
        invariant |listing| == i && forall j | 0 <= j < i :: listing[j] == (cs[j], 0)
      {
        listing := listing + [(cs[i], 0)];
      }
    }

    /** history: the recorded lines, numbered from 1, oldest first. */
    method History() returns (lines: seq<(nat, string)>)
      ensures |lines| == |history| && forall i | 0 <= i < |lines| :: lines[i] == (i + 1, history[i])
    {
      lines := [];
      for i := 0 to |history|
        invariant |lines| == i && forall j | 0 <= j < i :: lines[j] == (j + 1, history[j])
      {
        lines := lines + [(i + 1, history[i])];
      }
    }

    /**
     * Records the command line in the history, then runs the command;
     * `cd` without an argument goes to the root. What the queries report is
     * dropped here.
     */
    method Execute(line: string, cmd: Command, now: int) returns (res: Outcome)
      modifies this
      requires Valid()
      ensures Valid()
      ensures history == PushHistory(old(history), line)
      ensures cmd.CdCmd? && cmd.path.None? ==> current == RootId && res == Ok
      ensures cmd.IsQuery() ==> inodes == old(inodes) && current == old(current) && nextId == old(nextId)
      ensures cmd.MissingArgument? ==> res == Fail(BadUsage)
      ensures cmd.Unrecognized? ==> res == Fail(UnknownCommand)
    {
      RecordHistory(line);
      res := Dispatch(cmd, now);
    }

    /** Appends a command line to the history, dropping the oldest line once more than the limit are held. */
    method RecordHistory(line: string)
      modifies this
      requires Valid()
      ensures Valid()
      ensures history == PushHistory(old(history), line)
      ensures inodes == old(inodes) && current == old(current) && nextId == old(nextId)
    {
      PushHistoryBounded(history, line);
      history := history + [line];
      if |history| > HistoryLimit {
        history := history[1..];
      }
    }

    /** Runs one parsed command against the file system; the history is left alone. */
    method Dispatch(cmd: Command, now: int) returns (res: Outcome)
      modifies this
      requires Valid()
      ensures Valid()
      ensures history == old(history)
      ensures cmd.IsQuery() ==> inodes == old(inodes) && current == old(current) && nextId == old(nextId)
      ensures match cmd
        case MkdirCmd(name) =>
          && current == old(current)
          && (match old(Lookup(name, false))
            case Some(_) => res == Fail(AlreadyExists) && inodes == old(inodes) && nextId == old(nextId)
            case None =>
              && res == Ok && nextId == old(nextId) + 1
              && inodes == AddChild(old(inodes), current, NewINode(old(nextId), name, true, current, now), now))
        case TouchCmd(name) =>
          && current == old(current) && res == Ok
          && (match old(Lookup(name, false))
            case Some(i) =>
              inodes == Touched(old(inodes), old(inodes[current].children[i]), now) && nextId == old(nextId)
            case None =>
              && nextId == old(nextId) + 1
              && inodes == AddChild(old(inodes), current, NewINode(old(nextId), name, false, current, now), now))
        case CdCmd(path) =>
          && inodes == old(inodes) && nextId == old(nextId)
          && (path.None? || path.value == "/" ==> res == Ok && current == RootId)
          && (path == Some("") ==> res == Ok && current == old(current))
          && (path == Some("..") ==>
            res == Ok && current == if old(current) == RootId then RootId else old(inodes[current].parent))
          && (path.Some? && path.value != "" && path.value != "/" && path.value != ".." ==>
            (match old(Lookup(path.value, true))
            case Some(i) => res == Ok && current == old(inodes[current].children[i])
            case None => res == Fail(NotFound) && current == old(current)))
        case RmCmd(name) =>
          && current == old(current) && nextId == old(nextId)
          && (match old(Lookup(name, false))
            case None => res == Fail(NotFound) && inodes == old(inodes)
            case Some(i) =>
              var x := old(inodes[current].children[i]);
              if old(inodes[x].isDirectory) && old(inodes[x].children) != [] then
                res == Fail(NotEmpty) && inodes == old(inodes)
              else
                res == Ok && inodes == RemovedTree(old(inodes), current, i, now))
        case MvCmd(from, to) =>
          && current == old(current) && nextId == old(nextId)
          && (match old(Lookup(from, false))
            case None => res == Fail(NotFound) && inodes == old(inodes)
            case Some(i) =>
              if old(Lookup(to, false)).Some? then
                res == Fail(AlreadyExists) && inodes == old(inodes)
              else
                res == Ok && inodes == Renamed(old(inodes), current, old(inodes[current].children[i]), to, now))
        case ChmodCmd(name, mode) =>
          && current == old(current) && nextId == old(nextId)
          && (match old(Lookup(name, false))
            case None => res == Fail(NotFound) && inodes == old(inodes)
            case Some(i) =>
              var x := old(inodes[current].children[i]);
              if ValidMode(mode) then
                res == Ok && inodes == old(inodes)[x := old(inodes[x]).(permissions := mode, modificationTime := now)]
              else
                res == Fail(InvalidFormat) && inodes == old(inodes))
        case MissingArgument => res == Fail(BadUsage)
        case Unrecognized => res == Fail(UnknownCommand)
        case _ => inodes == old(inodes) && current == old(current) && nextId == old(nextId)
    {
      res := Ok;
      match cmd
      case MkdirCmd(name) => res := Mkdir(name, now);
      case TouchCmd(name) => res := Touch(name, now);
      case LsCmd(recursive) => var _ := Ls(recursive);
      case CdCmd(path) => res := Cd(if path.Some? then path.value else "/");
      case RmCmd(name) => res := Rm(name, now);
      case MvCmd(from, to) => res := Mv(from, to, now);
      case ChmodCmd(name, mode) => res := Chmod(name, mode, now);
      case FindCmd(query) => var _, _, _ := Find(query);
      case HistoryCmd => var _ := History();
      case PwdCmd => var _ := Pwd();
      case MissingArgument => res := Fail(BadUsage);
      case Unrecognized => res := Fail(UnknownCommand);
      case Blank =>
    }
  }

  /** Popping the top `s` of a worklist whose finished part and pending subtrees exactly cover `whole`. */
  lemma PopTop(m: Store, done: set<int>, rest: seq<int>, s: int, kids: seq<int>, whole: set<int>)
    requires ValidStore(m) && s in m
    requires kids == if m[s].isDirectory then m[s].children else []
    requires Stored(m, rest + [s])
    requires Pending(m, done, rest + [s], whole)
    ensures s in whole && s !in done
    ensures Stored(m, rest + kids)
    ensures Pending(m, done + {s}, rest + kids, whole)
    ensures SizeSum(m, rest + kids) < SizeSum(m, rest + [s])
  {
    WorklistTight(m, done, rest + [s], whole);
    assert (rest + [s])[..|rest|] == rest;
    assert s in Subtree(m, s);
    WorklistStep(m, rest, s);
    if m[s].isDirectory {
      ChildrenStored(m, s);
    }
    assert forall j | 0 <= j < |rest| :: rest[j] == (rest + [s])[j];
  }

  /**
   * The state of a depth-first traversal of `whole`: the entries already
   * handled and the subtrees still on the stack make up `whole`, without
   * overlap and with no subtree on the stack twice.
   */
  ghost predicate Pending(m: Store, done: set<int>, stack: seq<int>, whole: set<int>)
  {
    done + Forest(m, stack) == whole && |done| + SizeSum(m, stack) == |whole|
  }

  /** A traversal starting with `x` alone on the stack covers the subtree of `x`. */
  lemma StartTraversal(m: Store, x: int)
    requires x in m
    ensures Pending(m, {}, [x], Subtree(m, x)) && Stored(m, [x])
  {
    assert [x][..0] == [];
  }

  /** Every id on a traversal stack names an entry of the store. */
  ghost predicate Stored(m: Store, stack: seq<int>)
  {
    forall j | 0 <= j < |stack| :: stack[j] in m
  }

  /**
   * What a search has reported after visiting `visited`: exactly the
   * visited entries whose names contain the query, each once, each with
   * its absolute path.
   */
  ghost predicate Reported(m: Store, visited: set<int>, query: string, hits: seq<int>, paths: seq<string>)
    requires ValidStore(m)
  {
    && (forall i | 0 <= i < |hits| :: hits[i] in visited && hits[i] in m && Contains(m[hits[i]].name, query))
    && (forall k | k in visited && k in m && Contains(m[k].name, query) :: k in hits)
    && (forall i, j | 0 <= i < j < |hits| :: hits[i] != hits[j])
    && |paths| == |hits|
    && (forall i | 0 <= i < |hits| :: hits[i] in m && paths[i] == AbsolutePath(m, hits[i]))
  }

  /** Visiting a new entry whose name contains the query reports it, with its path. */
  lemma ReportHit(m: Store, visited: set<int>, query: string, hits: seq<int>, paths: seq<string>, id: int, path: string)
    requires ValidStore(m) && id in m && id !in visited
    requires Reported(m, visited, query, hits, paths)
    requires Contains(m[id].name, query) && path == AbsolutePath(m, id)
    ensures Reported(m, visited + {id}, query, hits + [id], paths + [path])
  {
    var h := hits + [id];
    var p := paths + [path];
    assert forall i | 0 <= i < |hits| :: h[i] == hits[i] && p[i] == paths[i];
  }

  /** Visiting a new entry whose name does not contain the query reports nothing new. */
  lemma ReportMiss(m: Store, visited: set<int>, query: string, hits: seq<int>, paths: seq<string>, id: int)
    requires ValidStore(m) && id in m && id !in visited
    requires Reported(m, visited, query, hits, paths)
    requires !Contains(m[id].name, query)
    ensures Reported(m, visited + {id}, query, hits, paths)
  {
  }

  /** Removing one more key from a store is removing the enlarged set of keys. */
  lemma RemoveOneMore(m: Store, done: set<int>, k: int)
    ensures (m - done) - {k} == m - (done + {k})
  {
    var l := (m - done) - {k};
    var r := m - (done + {k});
    assert l.Keys == r.Keys;
  }

  /** Pushes `children` onto the top of `stack`, first child first, as the traversal loops do. */
  method PushAll(stack: seq<int>, children: seq<int>) returns (r: seq<int>)
    ensures r == stack + children
  {
    r := stack;
    for j := 0 to |children|
      invariant r == stack + children[..j]
    {
      r := r + [children[j]];
    }
    assert children[..|children|] == children;
  }

  /** Loading one more record: storing it, then the records after it, is what remained to be stored. */
  lemma LoadStep(records: seq<INode>, m: Store, i: nat)
    requires i < |records|
    requires BuildStore(records) == m + BuildStore(records[i..])
    ensures BuildStore(records) == m[records[i].id := records[i]] + BuildStore(records[i + 1..])
  {
    var node := records[i];
    assert records[i..][1..] == records[i + 1..];
    assert BuildStore(records[i..]) == map[node.id := node] + BuildStore(records[i + 1..]);
    UnionAfterUpdate(m, node.id, node, BuildStore(records[i + 1..]));
  }

  /** Adding a single entry in front of a union is updating the left operand. */
  lemma UnionAfterUpdate(m: Store, k: int, n: INode, b: Store)
    ensures m + (map[k := n] + b) == m[k := n] + b
  {
    var l := m + (map[k := n] + b);
    var r := m[k := n] + b;
    assert l.Keys == r.Keys;
    assert forall j | j in l :: l[j] == r[j];
  }

  /** One step up the parent links: the name of `cur` moves from the path above into the collected parts. */
  lemma PathStep(m: Store, id: int, cur: int, parts: seq<string>)
    requires ValidStore(m) && id in m && cur in m && cur != RootId
    requires PathNames(m, id) == PathNames(m, cur) + Reversed(parts)
    ensures m[cur].parent in m && 0 <= m[cur].parent < cur
    ensures PathNames(m, id) == PathNames(m, m[cur].parent) + Reversed(parts + [m[cur].name])
  {
    assert NodeOk(m, cur);
    assert (parts + [m[cur].name])[..|parts|] == parts;
    assert Reversed(parts + [m[cur].name]) == [m[cur].name] + Reversed(parts);
  }

  /** Joining one more part: the first part alone, every later one after a "/". */
  lemma JoinStep(parts: seq<string>, i: nat)
    requires i < |parts|
    ensures Join(parts[..i + 1]) == if i == 0 then parts[0] else Join(parts[..i]) + "/" + parts[i]
  {
    assert parts[..i + 1][..i] == parts[..i];
  }

  /**
   * Saving a valid file system and starting a new one from the saved bytes
   * gives back the same store, in a valid file system at the root with an
   * empty history.
   */
  method Reopen(fs: SimpleFileSystem, now: int) returns (reopened: SimpleFileSystem)
    requires fs.Valid() && StorePersistable(fs.inodes)
    ensures reopened.inodes == fs.inodes
    ensures reopened.Valid() && reopened.current == RootId && reopened.history == []
  {
    var bytes := fs.SaveToDisk();
    LoadAfterSave(fs.inodes);
    reopened := new SimpleFileSystem(Some(bytes), now);
  }
}

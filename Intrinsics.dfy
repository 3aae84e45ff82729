/**
 * The builtins of shell/src/intrinsics.c that are bookkeeping rather than
 * filesystem work: the 15-entry command history (`command_log`,
 * `log_start`, `log_count`) with `log_add`, `log_get_command` and `do_log`;
 * the builtin-name lookups; and `reveal`'s argument parsing and target
 * resolution, including its `..` truncation.
 */
module Intrinsics {
  import opened Strings

  const MaxLogSize: nat := 15

  // ---------------------------------------------------------------------------
  // History as a value: oldest entry first
  // ---------------------------------------------------------------------------

  /** A line `log_add` never records: "log" followed by a space or by the end of the line. */
  predicate IsLogCommand(c: string) {
    |c| >= 3 && c[..3] == "log" && (|c| == 3 || c[3] == ' ')
  }

  /** `log_add` stores a line unless it is a `log` line or repeats the newest entry. */
  predicate Records(h: seq<string>, c: string) {
    !IsLogCommand(c) && !(|h| > 0 && h[|h| - 1] == c)
  }

  /** The history after `log_add(c)`, oldest entry first. */
  function Logged(h: seq<string>, c: string): (r: seq<string>)
    requires |h| <= MaxLogSize
    ensures |r| <= MaxLogSize
    ensures !Records(h, c) ==> r == h
    ensures Records(h, c) ==>
      && |r| == (if |h| == MaxLogSize then MaxLogSize else |h| + 1)
      && r[|r| - 1] == c
      && r[..|r| - 1] == h[|h| + 1 - |r|..]
  {
    if !Records(h, c) then h
    else if |h| == MaxLogSize then h[1..] + [c]
    else h + [c]
  }

  lemma LoggedCases(h: seq<string>, c: string)
    requires |h| <= MaxLogSize
    ensures Logged(h, c) == if !Records(h, c) then h else if |h| == MaxLogSize then h[1..] + [c] else h + [c]
  {
  }

  /** `log_get_command(i)`: the i-th most recent entry, for 1 <= i <= count. */
  function Recent(h: seq<string>, i: int): (r: Option<string>)
    ensures r.Some? <==> 1 <= i <= |h|
    ensures r.Some? ==> r.value == h[|h| - i]
  {
    if 1 <= i <= |h| then Some(h[|h| - i]) else None
  }

  /** A recorded command becomes entry 1, and every kept entry moves one place back. */
  lemma RecentAfterLogged(h: seq<string>, c: string, i: int)
    requires |h| <= MaxLogSize
    requires Records(h, c)
    ensures Recent(Logged(h, c), 1) == Some(c)
    ensures 1 <= i < MaxLogSize ==> Recent(Logged(h, c), i + 1) == Recent(h, i)
    ensures i == MaxLogSize ==> Recent(Logged(h, c), i + 1) == None
  {
  }

  /** Recording the same line twice in a row records it once. */
  lemma LoggedIdempotent(h: seq<string>, c: string)
    requires |h| <= MaxLogSize
    ensures Logged(Logged(h, c), c) == Logged(h, c)
  {
  }

  // ---------------------------------------------------------------------------
  // The ring buffer
  // ---------------------------------------------------------------------------

  datatype LogOutcome =
    | Listed(lines: seq<string>)      // `log`: one line per entry, oldest first
    | Purged                          // `log purge`
    | Printed(command: string)        // `log execute N` with a valid N
    | InvalidIndex                    // "log: invalid index"
    | Ignored                         // any other argument list: no output

  class History {
    var entries: array<string>
    var start: int
    var count: int
    /** The entries, oldest first. */
    ghost var Contents: seq<string>

    ghost predicate Valid()
      reads this, entries
    {
      && entries.Length == MaxLogSize
      && 0 <= start < MaxLogSize
      && 0 <= count <= MaxLogSize
      && |Contents| == count
      && forall i :: 0 <= i < count ==> Contents[i] == entries[Slot(start, i)]
    }

    /** The static state before any line: empty, `log_start = log_count = 0`. */
    constructor ()
      ensures Valid() && fresh(entries)
      ensures Contents == [] && start == 0 && count == 0
    {
      entries := new string[MaxLogSize](_ => "");
      start := 0;
      count := 0;
      Contents := [];
    }

    /**
     * `log_add`: skips `log` lines and a repeat of the newest entry; when
     * full, the oldest entry is overwritten and `log_start` advances.
     */
    method Add(c: string)
      requires Valid()
      modifies this, entries
      ensures Valid() && entries == old(entries)
      ensures Contents == Logged(old(Contents), c)
      ensures Records(old(Contents), c) && old(count) == MaxLogSize ==> start == (old(start) + 1) % MaxLogSize
      ensures Records(old(Contents), c) && old(count) < MaxLogSize ==> start == old(start) && count == old(count) + 1
      ensures !Records(old(Contents), c) ==> start == old(start) && count == old(count)
    {
      LoggedCases(Contents, c);
      if IsLogCommand(c) {
        return;
      }
      if count > 0 {
        SlotMod(start, count - 1);
        if c == entries[(start + count - 1) % MaxLogSize] {
          return;
        }
      }
      assert Records(Contents, c);
      LoggedCases(Contents, c);
      Record(c);
    }

    /** The store of `log_add` once the line is known to be recorded. */
    method Record(c: string)
      requires Valid()
      modifies this, entries
      ensures Valid() && entries == old(entries)
      ensures old(count) == MaxLogSize ==>
        Contents == old(Contents)[1..] + [c] && count == MaxLogSize && start == (old(start) + 1) % MaxLogSize
      ensures old(count) < MaxLogSize ==>
        Contents == old(Contents) + [c] && count == old(count) + 1 && start == old(start)
    {
      ghost var s0 := start;
      ghost var before := Contents;
      if count == MaxLogSize {
        SlotMod(start, 1);
        start := (start + 1) % MaxLogSize;
        Contents := Contents[1..] + [c];
      } else {
        count := count + 1;
        Contents := Contents + [c];
      }
      SlotMod(start, count - 1);
      var slot := (start + count - 1) % MaxLogSize;
      entries[slot] := c;
      forall i | 0 <= i < count
        ensures Contents[i] == entries[Slot(start, i)]
      {
        if i < count - 1 {
          if start != s0 {
            assert Contents[i] == before[i + 1] && Slot(start, i) == Slot(s0, i + 1);
          } else {
            assert Contents[i] == before[i];
          }
        }
      }
    }

    /** `log_get_command`: 1-based, most recent first. */
    method Get(index: int) returns (r: Option<string>)
      requires Valid()
      ensures r == Recent(Contents, index)
    {
      if index <= 0 || index > count {
        return None;
      }
      SlotMod(start, count - index);
      r := Some(entries[(start + count - index) % MaxLogSize]);
    }

    /** The listing loop of `log` without arguments. */
    method List() returns (lines: seq<string>)
      requires Valid()
      ensures lines == Contents
    {
      lines := [];
      var i := 0;
      while i < count
        invariant 0 <= i <= count
        invariant lines == Contents[..i]
      {
        SlotMod(start, i);
        lines := lines + [entries[(start + i) % MaxLogSize]];
        i := i + 1;
      }
    }

    /** `log purge`: the history becomes empty. */
    method Purge()
      requires Valid()
      modifies this
      ensures Valid() && entries == old(entries)
      ensures Contents == [] && start == 0 && count == 0
    {
      count := 0;
      start := 0;
      Contents := [];
    }

    /** `do_log`, on the arguments including `args[0] == "log"`. */
    method DoLog(args: seq<string>) returns (r: LogOutcome)
      requires Valid() && |args| >= 1
      modifies this
      ensures Valid() && entries == old(entries)
      ensures |args| == 1 ==> r == Listed(old(Contents)) && Contents == old(Contents)
      ensures |args| == 2 && args[1] == "purge" ==> r == Purged && Contents == []
      ensures |args| == 3 && args[1] == "execute" ==>
        Contents == old(Contents) &&
        r == (match Recent(old(Contents), Atoi(args[2])) case Some(c) => Printed(c) case None => InvalidIndex)
      ensures !(|args| == 1 || (|args| == 2 && args[1] == "purge") || (|args| == 3 && args[1] == "execute")) ==>
        r == Ignored && Contents == old(Contents)
    {
      if |args| == 1 {
        var lines := List();
        return Listed(lines);
      } else if |args| == 2 && args[1] == "purge" {
        Purge();
        return Purged;
      } else if |args| == 3 && args[1] == "execute" {
        var found := Get(Atoi(args[2]));
        if found.Some? {
          return Printed(found.value);
        }
        return InvalidIndex;
      }
      return Ignored;
    }
  }

  /** The ring position `i` places after `s`, without the division. */
  function Slot(s: int, i: int): (r: int)
    requires 0 <= s < MaxLogSize && 0 <= i < MaxLogSize
    ensures 0 <= r < MaxLogSize
  {
    if s + i < MaxLogSize then s + i else s + i - MaxLogSize
  }

  /** `(s + i) % MAX_LOG_SIZE` is that position. */
  lemma SlotMod(s: int, i: int)
    requires 0 <= s < MaxLogSize && 0 <= i < MaxLogSize
    ensures (s + i) % MaxLogSize == Slot(s, i)
  {
  }

  // ---------------------------------------------------------------------------
  // Builtin names
  // ---------------------------------------------------------------------------

  datatype Builtin = Hop | Reveal | Log | Activities | Ping | Fg | Bg

  function Name(b: Builtin): string {
    match b
    case Hop => "hop"
    case Reveal => "reveal"
    case Log => "log"
    case Activities => "activities"
    case Ping => "ping"
    case Fg => "fg"
    case Bg => "bg"
  }

  /** The dispatch of `handle_intrinsic`: which builtin, if any, `args[0]` names. */
  function IntrinsicOf(name: string): (r: Option<Builtin>)
    ensures r.Some? ==> Name(r.value) == name
    ensures r.None? ==> forall b: Builtin :: Name(b) != name
  {
    if name == "hop" then Some(Hop)
    else if name == "reveal" then Some(Reveal)
    else if name == "log" then Some(Log)
    else if name == "activities" then Some(Activities)
    else if name == "ping" then Some(Ping)
    else if name == "fg" then Some(Fg)
    else if name == "bg" then Some(Bg)
    else None
  }

  /** Every builtin is found under its own name. */
  lemma IntrinsicOfName(b: Builtin)
    ensures IntrinsicOf(Name(b)) == Some(b)
  {
  }

  /** `is_parent_builtin`: the builtins that run in the shell process itself. */
  function IsParentBuiltin(cmd: string): (r: bool)
    ensures r ==> IntrinsicOf(cmd) == Some(Hop)
    ensures IntrinsicOf(cmd) == Some(Hop) ==> r
  {
    cmd == "hop"
  }

  // ---------------------------------------------------------------------------
  // reveal
  // ---------------------------------------------------------------------------

  /** An argument of the form `-xyz`: a flag cluster. A bare `-` is a path. */
  predicate IsFlagArg(a: string) {
    |a| > 1 && a[0] == '-'
  }

  /** The path arguments among `args`, in order. */
  function PathArgs(args: seq<string>): (r: seq<string>)
    ensures |r| <= |args|
  {
    if |args| == 0 then []
    else (if IsFlagArg(args[0]) then [] else [args[0]]) + PathArgs(args[1..])
  }

  /** The path arguments are exactly the arguments that are not flag clusters. */
  lemma {:induction false} PathArgsMembers(args: seq<string>)
    ensures forall p :: p in PathArgs(args) <==> p in args && !IsFlagArg(p)
  {
    if |args| > 0 {
      PathArgsMembers(args[1..]);
      assert args == [args[0]] + args[1..];
    }
  }

  /** Some flag cluster among `args` contains `c`. */
  predicate HasFlag(args: seq<string>, c: char) {
    exists i :: 0 <= i < |args| && IsFlagArg(args[i]) && c in args[i][1..]
  }

  datatype RevealArgs = RevealArgs(showAll: bool, lineByLine: bool, path: Option<string>)

  /**
   * The argument loop of `do_reveal`: flag clusters set `-a` and `-l`, any
   * other argument is the path, and a second path is "reveal: Invalid Syntax!".
   */
  method ParseRevealArgs(args: seq<string>) returns (r: Option<RevealArgs>)
    requires |args| >= 1
    ensures r.None? <==> |PathArgs(args[1..])| >= 2
    ensures r.Some? ==> r.value.path == (if |PathArgs(args[1..])| == 0 then None else Some(PathArgs(args[1..])[0]))
    ensures r.Some? ==> (r.value.showAll <==> HasFlag(args[1..], 'a'))
    ensures r.Some? ==> (r.value.lineByLine <==> HasFlag(args[1..], 'l'))
  {
    var showAll, lineByLine := false, false;
    var path: Option<string> := None;
    ghost var seen: seq<string> := [];
    var i := 1;
    while i < |args|
      invariant 1 <= i <= |args| && seen == args[1..i]
      invariant |PathArgs(seen)| <= 1
      invariant path == (if |PathArgs(seen)| == 0 then None else Some(PathArgs(seen)[0]))
      invariant showAll <==> HasFlag(seen, 'a')
      invariant lineByLine <==> HasFlag(seen, 'l')
    {
      var a := args[i];
      PathArgsSnoc(seen, a);
      HasFlagSnoc(seen, a, 'a');
      HasFlagSnoc(seen, a, 'l');
      assert args[1..i + 1] == seen + [a];
      if |a| > 0 && a[0] == '-' && |a| > 1 {
        var hasA, hasL := ScanFlags(a);
        showAll := showAll || hasA;
        lineByLine := lineByLine || hasL;
      } else {
        if path.Some? {
          assert args[1..][..i] == seen + [a];
          PathArgsGrow(args[1..], i);
          return None;
        }
        path := Some(a);
      }
      seen := seen + [a];
      i := i + 1;
    }
    assert seen == args[1..];
    r := Some(RevealArgs(showAll, lineByLine, path));
  }

  /** The inner loop over the letters of one flag cluster. */
  method ScanFlags(a: string) returns (hasA: bool, hasL: bool)
    requires |a| > 1
    ensures hasA <==> 'a' in a[1..]
    ensures hasL <==> 'l' in a[1..]
  {
    hasA, hasL := false, false;
    var j := 1;
    while j < |a|
      invariant 1 <= j <= |a|
      invariant hasA <==> 'a' in a[1..j]
      invariant hasL <==> 'l' in a[1..j]
    {
      assert a[1..j + 1] == a[1..j] + [a[j]];
      if a[j] == 'a' {
        hasA := true;
      } else if a[j] == 'l' {
        hasL := true;
      }
      j := j + 1;
    }
    assert a[1..j] == a[1..];
  }

  lemma {:induction false} PathArgsSnoc(args: seq<string>, a: string)
    ensures PathArgs(args + [a]) == PathArgs(args) + (if IsFlagArg(a) then [] else [a])
  {
    if |args| == 0 {
      assert args + [a] == [a];
    } else {
      assert (args + [a])[1..] == args[1..] + [a];
      PathArgsSnoc(args[1..], a);
    }
  }

  lemma {:induction false} PathArgsPrefix(args: seq<string>, k: nat)
    requires k <= |args|
    ensures |PathArgs(args[..k])| <= |PathArgs(args)|
    decreases |args| - k
  {
    if k < |args| {
      PathArgsSnoc(args[..k], args[k]);
      assert args[..k + 1] == args[..k] + [args[k]];
      PathArgsPrefix(args, k + 1);
    } else {
      assert args[..k] == args;
    }
  }

  /** Two path arguments among the first `i` make the whole list invalid. */
  lemma PathArgsGrow(tail: seq<string>, i: nat)
    requires 1 <= i <= |tail|
    requires |PathArgs(tail[..i])| >= 2
    ensures |PathArgs(tail)| >= 2
  {
    PathArgsPrefix(tail, i);
  }

  lemma HasFlagSnoc(args: seq<string>, a: string, c: char)
    ensures HasFlag(args + [a], c) <==> HasFlag(args, c) || (IsFlagArg(a) && c in a[1..])
  {
    if IsFlagArg(a) && c in a[1..] {
      assert (args + [a])[|args|] == a;
    }
    if HasFlag(args, c) {
      var i :| 0 <= i < |args| && IsFlagArg(args[i]) && c in args[i][1..];
      assert (args + [a])[i] == args[i];
    }
  }

  /** The index of the last `c` in `s` (`strrchr`). */
  function LastIndexOf(s: string, c: char): (r: Option<nat>)
    ensures r.Some? ==> r.value < |s| && s[r.value] == c && c !in s[r.value + 1..]
    ensures r.None? ==> c !in s
  {
    if |s| == 0 then None
    else if s[|s| - 1] == c then Some(|s| - 1)
    else
      var r := LastIndexOf(s[..|s| - 1], c);
      assert s == s[..|s| - 1] + [s[|s| - 1]];
      r
  }

  /**
   * The `..` case of `do_reveal`: cut the working directory at its last `/`;
   * a last `/` at the very start leaves just `/`.
   */
  function ParentPath(cwd: string): (r: string)
    ensures |r| <= |cwd|
  {
    match LastIndexOf(cwd, '/')
    case None => cwd
    case Some(k) => if k > 0 then cwd[..k] else if |cwd| > 1 then "/" else cwd
  }

  /** The parent of `d/name` is `d`. */
  lemma ParentOfChild(d: string, name: string)
    requires |d| > 0 && '/' !in name
    ensures ParentPath(d + "/" + name) == d
  {
    var p := d + "/" + name;
    assert p[|d| + 1..] == name;
    assert p[|d|] == '/';
    assert p[..|d|] == d;
  }

  /** A directory directly under the root has the root as its parent. */
  lemma ParentOfTopLevel(name: string)
    requires |name| > 0 && '/' !in name
    ensures ParentPath("/" + name) == "/"
  {
    assert ("/" + name)[1..] == name;
  }

  /** The root is its own parent, and a name with no `/` is left alone. */
  lemma ParentFixedPoints(s: string)
    requires s == "/" || '/' !in s
    ensures ParentPath(s) == s
  {
  }

  datatype RevealTarget = Directory(path: string) | NoSuchDirectory

  /**
   * The target directory of `do_reveal`. `previous` is the directory
   * recorded by the last successful `hop`, if any.
   */
  function RevealTargetOf(path: Option<string>, cwd: string, previous: Option<string>, home: string): (r: RevealTarget)
    ensures r.NoSuchDirectory? <==> path == Some("-") && previous.None?
    ensures path.None? || path == Some(".") ==> r == Directory(cwd)
    ensures path == Some("~") ==> r == Directory(home)
    ensures path == Some("..") ==> r == Directory(ParentPath(cwd))
    ensures path.Some? && path.value !in {"-", "~", ".", ".."} ==> r == Directory(path.value)
  {
    match path
    case None => Directory(cwd)
    case Some(p) =>
      if p == "-" then (if previous.Some? then Directory(previous.value) else NoSuchDirectory)
      else if p == "~" then Directory(home)
      else if p == "." then Directory(cwd)
      else if p == ".." then Directory(ParentPath(cwd))
      else Directory(p)
  }
}

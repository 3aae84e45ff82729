/**
 * The prompt of shell/src/prompt.c: `<user@host:path> `, where the working
 * directory is shown relative to the shell's home directory (`~…`) when the
 * home directory is a textual prefix of it. The user name, host name and
 * working directory come from system calls and are inputs here; a failed
 * lookup is `None`.
 */
module Prompt {
  import opened Strings

  /** `char display_path[PATH_MAX]` holds at most 4095 characters. */
  const PathMax: nat := 4096
  const DisplayCapacity: nat := PathMax - 1

  /**
   * `display_path`: `strstr(cwd, SHELL_HOME) == cwd` holds exactly when the
   * home directory is a prefix of `cwd`; then `snprintf("~%s")` of the rest,
   * otherwise `cwd` copied with `strncpy`, both cut to the buffer.
   */
  function DisplayPath(cwd: string, home: string): (r: string)
    ensures |r| <= DisplayCapacity
  {
    if home <= cwd then Truncate("~" + cwd[|home|..], DisplayCapacity)
    else Truncate(cwd, DisplayCapacity)
  }

  /** Reading `~` back as the home directory. */
  function ExpandHome(d: string, home: string): string {
    if |d| > 0 && d[0] == '~' then home + d[1..] else d
  }

  /** At the home directory itself the path is exactly `~`. */
  lemma DisplayAtHome(home: string)
    ensures DisplayPath(home, home) == "~"
  {
    assert home[|home|..] == [];
  }

  /** Inside the home directory: `~` and the rest of the path, which reads back to `cwd`. */
  lemma DisplayUnderHome(cwd: string, home: string)
    requires home <= cwd && |cwd| - |home| < DisplayCapacity
    ensures DisplayPath(cwd, home) == "~" + cwd[|home|..]
    ensures ExpandHome(DisplayPath(cwd, home), home) == cwd
  {
    var d := "~" + cwd[|home|..];
    assert d[1..] == cwd[|home|..];
    assert home + cwd[|home|..] == cwd;
  }

  /** Elsewhere the path is `cwd` itself, cut to 4095 characters. */
  lemma DisplayOutsideHome(cwd: string, home: string)
    requires !(home <= cwd)
    ensures DisplayPath(cwd, home) <= cwd
    ensures |cwd| <= DisplayCapacity ==> DisplayPath(cwd, home) == cwd
    ensures |cwd| > DisplayCapacity ==> |DisplayPath(cwd, home)| == DisplayCapacity
  {
  }

  /**
   * The prefix test is textual, not per path component: a sibling whose
   * name extends the home directory's is shown as `~` plus the extra text.
   */
  lemma SiblingShownUnderTilde()
    ensures DisplayPath("/home/ann2", "/home/ann") == "~2"
  {
    assert "/home/ann" <= "/home/ann2";
    assert "/home/ann2"[|"/home/ann"|..] == "2";
  }

  /** `<user@host:path> `, with "user", "system" and "" when a lookup fails. */
  function PromptText(user: Option<string>, host: Option<string>, cwd: Option<string>, home: string): (r: string)
  {
    var u := if user.Some? then user.value else "user";
    var n := if host.Some? then host.value else "system";
    var c := if cwd.Some? then cwd.value else "";
    "<" + u + "@" + n + ":" + DisplayPath(c, home) + "> "
  }

  /** The prompt is bracketed, names the user and host, and ends in "> ". */
  lemma PromptShape(user: string, host: string, cwd: string, home: string)
    ensures var r := PromptText(Some(user), Some(host), Some(cwd), home);
      && r[..|user| + 2] == "<" + user + "@"
      && r[|user| + 2..|user| + 2 + |host| + 1] == host + ":"
      && r[|r| - 2..] == "> "
      && r[|user| + |host| + 3..|r| - 2] == DisplayPath(cwd, home)
  {
  }

  /** All three lookups failed and the home directory is not a prefix of "". */
  lemma PromptFallbacks(home: string)
    requires |home| > 0
    ensures PromptText(None, None, None, home) == "<user@system:> "
  {
    assert !(home <= "");
  }
}

/** Reading the settings back from the config file that holds the managed block. */
module CodexReadBack {
  import opened CodexBlock
  import opened Wrappers

  /** The text between newlines. */
  function Lines(s: string): (ls: seq<string>)
    ensures |ls| > 0
  {
    if s == "" then [""]
    else
      var ls := Lines(s[1..]);
      if s[0] == '\n' then [""] + ls else [[s[0]] + ls[0]] + ls[1..]
  }

  /** The value of the first line `key = value` under the header of the table. */
  function Find(ls: seq<string>, table: string, key: string, inTable: bool): Option<string> {
    if ls == [] then None
    else if ls[0] == "[" + table + "]" then Find(ls[1..], table, key, true)
    else if ls[0] != "" && ls[0][0] == '[' then Find(ls[1..], table, key, false)
    else if inTable && key + " = " <= ls[0] then Some(ls[0][|key| + 3..])
    else Find(ls[1..], table, key, inTable)
  }

  function Setting(file: string, table: string, key: string): Option<string> {
    Find(Lines(file), table, key, false)
  }

  lemma {:induction false} OneLine(s: string)
    requires '\n' !in s
    ensures Lines(s) == [s]
  {
    if s != "" {
      OneLine(s[1..]);
      assert s == [s[0]] + s[1..];
    }
  }

  lemma LinesStep(a: string, t: string)
    ensures a == "" ==> Lines(a + "\n" + t) == [""] + Lines(t)
    ensures a != "" ==> (a + "\n" + t)[1..] == a[1..] + "\n" + t && (a + "\n" + t)[0] == a[0]
  {
    assert a == "" ==> (a + "\n" + t)[1..] == t;
  }

  lemma {:induction false} LinesApart(a: string, t: string)
    ensures Lines(a + "\n" + t) == Lines(a) + Lines(t)
  {
    LinesStep(a, t);
    if a != "" {
      LinesApart(a[1..], t);
      var ls, ms := Lines(a[1..]), Lines(t);
      assert (ls + ms)[1..] == ls[1..] + ms && (ls + ms)[0] == ls[0];
    }
  }

  lemma LineThen(text: string, rest: string)
    requires '\n' !in text
    ensures Lines(Line(text, rest)) == [text] + Lines(rest)
  {
    hide Lines;
    OneLine(text);
    LinesApart(text, rest);
  }

  /** Lines that hold no header of the table are passed over. */
  lemma {:induction false} FindBehind(pre: seq<string>, ls: seq<string>, table: string, key: string)
    requires forall l | l in pre :: l != "[" + table + "]"
    ensures Find(pre + ls, table, key, false) == Find(ls, table, key, false)
  {
    if pre == [] {
      assert pre + ls == ls;
    } else {
      assert pre[0] in pre && (pre + ls)[1..] == pre[1..] + ls && forall l | l in pre[1..] :: l in pre;
      FindBehind(pre[1..], ls, table, key);
    }
  }

  predicate NoHeader(l: string) { l == "" || l[0] != '[' }

  lemma NoHeaders()
    ensures NoHeader(RERUN) && NoHeader(SUPERVISED) && NoHeader(RESPAWN) && NoHeader(ISOLATED)
    ensures NoHeader(START) && NoHeader(END) && NoHeader(ARGS) && NoHeader(RESTART)
  {
    assert |OPENING| > 0 && START[0] == OPENING[0];
  }

  predicate Unbroken(s: string) { '\n' !in s }

  lemma CommentsUnbroken()
    ensures Unbroken(RERUN) && Unbroken(SUPERVISED) && Unbroken(RESPAWN) && Unbroken(ISOLATED)
  {
    hide Unbroken;
    NoNewline("# Re-run `pincher init", " --target=codex` to", " refresh this block.");
    NoNewline("# `command` uses the", " supervised wrapper", " so dropped MCP sessions");
    NoNewline("# auto-respawn without", " manual /mcp;", " PINCHER_DATA_DIR isolates");
    NoNewline("# Codex's pincher DB", " from other agent CLIs", " (Claude Code, etc.).");
  }

  lemma SettingsUnbroken()
    ensures Unbroken(ARGS) && Unbroken(ENV) && Unbroken(RESTART) && Unbroken(ENTRY) && Unbroken(START) && Unbroken(END)
  {
    hide Unbroken;
    NoNewline("args = [", "\"supervised\"", "]");
    NoNewline("[mcp_servers.", "pincher", ".env]");
    NoNewline("PINCHER_AUTO_", "RESTART_ON_DRIFT", " = \"1\"");
    MarkersUnbroken();
  }

  lemma MarkersUnbroken()
    ensures Unbroken(START) && Unbroken(END) && Unbroken(ENTRY)
  {
    StartPlain();
    EndOneLine();
    EntryOneLine();
    hide START, END, ENTRY;
  }

  lemma NoNewline(a: string, b: string, c: string)
    requires forall k | 0 <= k < |a| :: a[k] != '\n'
    requires forall k | 0 <= k < |b| :: b[k] != '\n'
    requires forall k | 0 <= k < |c| :: c[k] != '\n'
    ensures Unbroken(a + b + c)
  {
  }

  /** The first lines of the block are comments. */
  function Head(): seq<string> { [START, RERUN, SUPERVISED, RESPAWN, ISOLATED] }

  function Server(command: string): seq<string> { ["command = " + command, ARGS, ""] }

  function Env(dataDir: string): seq<string> { ["PINCHER_DATA_DIR = " + dataDir, RESTART, END] }

  lemma EntryLines(command: string, dataDir: string)
    requires '\n' !in command && '\n' !in dataDir
    ensures Lines(Entry(command, dataDir)) + [END] == [ENTRY] + Server(command) + [ENV] + Env(dataDir)
  {
    SettingsUnbroken();
    hide Lines, Line, ENTRY, ARGS, ENV, RESTART, END, START;
    var dir := Line("PINCHER_DATA_DIR = " + dataDir, RESTART);
    OneLine(RESTART);
    LineThen("PINCHER_DATA_DIR = " + dataDir, RESTART);
    LineThen(ENV, dir);
    LineThen("", Line(ENV, dir));
    LineThen(ARGS, Line("", Line(ENV, dir)));
    LineThen("command = " + command, Line(ARGS, Line("", Line(ENV, dir))));
    LineThen(ENTRY, Line("command = " + command, Line(ARGS, Line("", Line(ENV, dir)))));
  }

  lemma InteriorLines(command: string, dataDir: string)
    ensures Lines(Interior(command, dataDir)) == [RERUN, SUPERVISED, RESPAWN, ISOLATED] + Lines(Entry(command, dataDir))
  {
    CommentsUnbroken();
    hide Lines, Line, Entry, RERUN, SUPERVISED, RESPAWN, ISOLATED;
    var entry := Entry(command, dataDir);
    LineThen(ISOLATED, entry);
    LineThen(RESPAWN, Line(ISOLATED, entry));
    LineThen(SUPERVISED, Line(RESPAWN, Line(ISOLATED, entry)));
    LineThen(RERUN, Line(SUPERVISED, Line(RESPAWN, Line(ISOLATED, entry))));
  }

  lemma BlockLines(command: string, dataDir: string)
    requires '\n' !in command && '\n' !in dataDir
    ensures Lines(Wrap(Interior(command, dataDir)))
            == Head() + ([ENTRY] + Server(command) + [ENV] + Env(dataDir))
  {
    MarkersUnbroken();
    EntryLines(command, dataDir);
    InteriorLines(command, dataDir);
    WrapLines(Interior(command, dataDir));
    assert Head() == [START] + [RERUN, SUPERVISED, RESPAWN, ISOLATED];
    var entry := Lines(Entry(command, dataDir));
    hide *;
    FourParts([START], [RERUN, SUPERVISED, RESPAWN, ISOLATED], entry, [END]);
  }

  lemma WrapLines(interior: string)
    ensures Lines(Wrap(interior)) == [START] + Lines(interior) + [END]
  {
    MarkersUnbroken();
    hide Lines, END, START;
    LinesApart(START + "\n" + interior, END);
    LinesApart(START, interior);
    OneLine(START);
    OneLine(END);
  }

  lemma FourParts(a: seq<string>, b: seq<string>, c: seq<string>, d: seq<string>)
    ensures a + (b + c) + d == (a + b) + (c + d)
  {
  }

  // ---- Looking the settings up ----

  /** The header line opens the table; of the lines behind it only the one with the key answers. */
  lemma {:induction false} FindIn(pre: seq<string>, l: string, post: seq<string>, table: string, key: string)
    requires forall x | x in pre :: NoHeader(x) && !(key + " = " <= x)
    requires NoHeader(l) && key + " = " <= l
    ensures Find(pre + [l] + post, table, key, true) == Some(l[|key| + 3..])
  {
    var ls := pre + [l] + post;
    assert ("[" + table + "]")[0] == '[';
    if pre != [] {
      assert ls[0] == pre[0] && pre[0] in pre && ls[1..] == pre[1..] + [l] + post;
      assert forall x | x in pre[1..] :: x in pre;
      FindIn(pre[1..], l, post, table, key);
    } else {
      assert ls[0] == l;
    }
  }

  /** A setting of a table that opens behind other lines. */
  lemma FindUnder(before: seq<string>, table: string, pre: seq<string>, l: string, post: seq<string>, key: string)
    requires forall x | x in before :: x != "[" + table + "]"
    requires forall x | x in pre :: NoHeader(x) && !(key + " = " <= x)
    requires NoHeader(l) && key + " = " <= l
    ensures Find(before + (["[" + table + "]"] + (pre + [l] + post)), table, key, false) == Some(l[|key| + 3..])
  {
    hide NoHeader;
    var ls := pre + [l] + post;
    FindBehind(before, ["[" + table + "]"] + ls, table, key);
    assert (["[" + table + "]"] + ls)[1..] == ls;
    FindIn(pre, l, post, table, key);
  }

  lemma Opposite(a: string, b: string)
    requires a != "" && b != "" && a[0] != b[0]
    ensures !(a <= b)
  {
  }

  lemma Named()
    ensures "[" + "mcp_servers.pincher" + "]" == ENTRY && "[" + "mcp_servers.pincher.env" + "]" == ENV
    ensures ARGS == "args" + " = " + "[\"supervised\"]"
    ensures RESTART == "PINCHER_AUTO_RESTART_ON_DRIFT" + " = " + "\"1\""
    ensures ENTRY != ENV
  {
  }

  lemma KeyLine(key: string, value: string)
    requires key != "" && key[0] != '['
    ensures var l := key + " = " + value; key + " = " <= l && l[|key| + 3..] == value && NoHeader(l)
  {
  }

  lemma ServerSettings(before: seq<string>, command: string, post: seq<string>)
    requires forall l | l in before :: l != "[mcp_servers.pincher]"
    ensures var ls := before + ([ENTRY] + (Server(command) + post));
            && Find(ls, "mcp_servers.pincher", "command", false) == Some(command)
            && Find(ls, "mcp_servers.pincher", "args", false) == Some("[\"supervised\"]")
  {
    Named();
    KeyLine("command", command);
    KeyLine("args", "[\"supervised\"]");
    assert "command" + " = " + command == "command = " + command;
    Opposite("args" + " = ", "command" + " = " + command);
    hide Find, ARGS, ENTRY, ENV, RESTART;
    var line := "command = " + command;
    assert [] + [line] + ([ARGS, ""] + post) == Server(command) + post;
    assert [line] + [ARGS] + ([""] + post) == Server(command) + post;
    FindUnder(before, "mcp_servers.pincher", [], line, [ARGS, ""] + post, "command");
    FindUnder(before, "mcp_servers.pincher", [line], ARGS, [""] + post, "args");
  }

  lemma EnvSettings(before: seq<string>, dataDir: string, after: seq<string>)
    requires forall l | l in before :: l != "[mcp_servers.pincher.env]"
    ensures var ls := before + ([ENV] + (Env(dataDir) + after));
            && Find(ls, "mcp_servers.pincher.env", "PINCHER_DATA_DIR", false) == Some(dataDir)
            && Find(ls, "mcp_servers.pincher.env", "PINCHER_AUTO_RESTART_ON_DRIFT", false) == Some("\"1\"")
  {
    Named();
    var dir := "PINCHER_DATA_DIR" + " = " + dataDir;
    KeyLine("PINCHER_DATA_DIR", dataDir);
    KeyLine("PINCHER_AUTO_RESTART_ON_DRIFT", "\"1\"");
    assert dir == "PINCHER_DATA_DIR = " + dataDir;
    OtherKey(dataDir);
    hide Find, ARGS, ENTRY, ENV, RESTART, END;
    assert [] + [dir] + ([RESTART, END] + after) == Env(dataDir) + after;
    assert [dir] + [RESTART] + ([END] + after) == Env(dataDir) + after;
    FindUnder(before, "mcp_servers.pincher.env", [], dir, [RESTART, END] + after, "PINCHER_DATA_DIR");
    FindUnder(before, "mcp_servers.pincher.env", [dir], RESTART, [END] + after, "PINCHER_AUTO_RESTART_ON_DRIFT");
  }

  lemma OtherKey(dataDir: string)
    ensures !("PINCHER_AUTO_RESTART_ON_DRIFT" + " = " <= "PINCHER_DATA_DIR" + " = " + dataDir)
  {
    var a, b := "PINCHER_AUTO_RESTART_ON_DRIFT" + " = ", "PINCHER_DATA_DIR" + " = " + dataDir;
    assert a[8] == 'A' && b[8] == 'D';
  }

  /** Behind lines that open neither table, the block's lines give every setting its value. */
  lemma BlockSettings(before: seq<string>, command: string, dataDir: string, after: seq<string>)
    requires forall l | l in before :: l != "[mcp_servers.pincher]" && l != "[mcp_servers.pincher.env]"
    ensures var ls := before + ([ENTRY] + Server(command) + [ENV] + Env(dataDir)) + after;
            && Find(ls, "mcp_servers.pincher", "command", false) == Some(command)
            && Find(ls, "mcp_servers.pincher", "args", false) == Some("[\"supervised\"]")
            && Find(ls, "mcp_servers.pincher.env", "PINCHER_DATA_DIR", false) == Some(dataDir)
            && Find(ls, "mcp_servers.pincher.env", "PINCHER_AUTO_RESTART_ON_DRIFT", false) == Some("\"1\"")
  {
    Named();
    KeyLine("command", command);
    assert "command" + " = " + command == "command = " + command;
    assert NoHeader(ARGS) by { NoHeaders(); }
    assert ENV[0] == '[';
    ServerSettings(before, command, [ENV] + Env(dataDir) + after);
    EnvSettings(before + [ENTRY] + Server(command), dataDir, after);
    hide Find, ENTRY, ENV, Server, Env;
    Regrouped(before, [ENTRY], Server(command), [ENV], Env(dataDir), after);
  }

  lemma Regrouped(a: seq<string>, b: seq<string>, c: seq<string>, d: seq<string>, e: seq<string>, f: seq<string>)
    ensures a + (b + c + d + e) + f == a + (b + (c + (d + e + f)))
    ensures a + (b + c + d + e) + f == a + b + c + (d + (e + f))
  {
  }

  // ---- In the file written ----

  /** Trimming newlines off the end takes whole lines away. */
  lemma TrimmedLines(s: string)
    ensures forall l | l in Lines(TrimRight(s)) :: l in Lines(s)
  {
    var r := TrimRight(s);
    if |r| < |s| {
      assert s[|r|..][0] in s[|r|..] && s[|r|..][0] == s[|r|];
      assert s == r + "\n" + s[|r| + 1..];
      LinesApart(r, s[|r| + 1..]);
    }
  }

  /** The file is some kept text, unless empty or trimmed off set apart by newlines, the block, and more lines. */
  lemma FileParts(x: string, block: string) returns (before: string, tail: string)
    requires WriteConfig(x, block).1 != Skipped
    ensures var kept := if 0 <= Index(x, START) < Index(x, END) then x[..Index(x, START)] else x;
            before == "" || before == TrimRight(kept)
    ensures var file := WriteConfig(x, block).0;
            file == block + ("\n" + tail) || file == before + "\n" + ("" + "\n" + (block + ("\n" + tail)))
  {
    hide TrimRight, TrimLeft, START, END, ENTRY;
    before, tail := "", "";
    if 0 <= Index(x, START) < Index(x, END) {
      var s, e := WriteUpdates(x, block);
      before := TrimRight(x[..s]);
      var after := TrimLeft(x[e + |END|..]);
      if after != "" { tail := "\n" + after; }
      hide WriteConfig, Index;
      Assembled(before, block, after, tail);
    } else if x != "" {
      before := TrimRight(x);
      assert before + "\n\n" + block + "\n" == before + "\n" + ("" + "\n" + (block + ("\n" + "")));
    }
  }

  lemma Assembled(before: string, block: string, after: string, tail: string)
    requires tail == if after == "" then "" else "\n" + after
    ensures var file := Assemble(before, block, after);
            if before == "" then file == block + ("\n" + tail)
            else file == before + "\n" + ("" + "\n" + (block + ("\n" + tail)))
  {
    var lead, end := if before != "" then "\n\n" else "", if after != "" then "\n\n" + after else "\n";
    assert end == "\n" + tail;
    hide *;
    if before == "" { assert before + lead + block + end == block + end; }
    else { Spaced(before, block, end); }
  }

  lemma Spaced(before: string, block: string, end: string)
    ensures before + "\n\n" + block + end == before + "\n" + ("" + "\n" + (block + end))
  {
  }

  lemma FileLines(x: string, block: string) returns (before: seq<string>, after: seq<string>)
    requires WriteConfig(x, block).1 != Skipped
    ensures Lines(WriteConfig(x, block).0) == before + Lines(block) + after
    ensures var kept := if 0 <= Index(x, START) < Index(x, END) then x[..Index(x, START)] else x;
            forall l | l in before :: l == "" || l in Lines(kept)
  {
    hide WriteConfig, Index, TrimRight, Lines, START, END;
    var text, tail := FileParts(x, block);
    var kept := if 0 <= Index(x, START) < Index(x, END) then x[..Index(x, START)] else x;
    TrimmedLines(kept);
    OneLine("");
    after := Lines(tail);
    assert block + ("\n" + tail) == block + "\n" + tail;
    LinesApart(block, tail);
    if WriteConfig(x, block).0 == block + ("\n" + tail) {
      before := [];
    } else {
      before := Lines(text) + [""];
      LinesApart("", block + ("\n" + tail));
      LinesApart(text, "" + "\n" + (block + ("\n" + tail)));
    }
  }

  /**
   * Whatever file the block is written to, unless the write is refused, the settings read back are the ones written,
   * if the text kept before the block opens neither table.
   */
  lemma SettingsReadBack(x: string, command: string, dataDir: string)
    requires '\n' !in command && '\n' !in dataDir
    requires var kept := if 0 <= Index(x, START) < Index(x, END) then x[..Index(x, START)] else x;
             forall l | l in Lines(kept) :: l != "[mcp_servers.pincher]" && l != "[mcp_servers.pincher.env]"
    ensures var (file, action) := WriteConfig(x, Wrap(Interior(command, dataDir)));
            action != Skipped ==>
              && Setting(file, "mcp_servers.pincher", "command") == Some(command)
              && Setting(file, "mcp_servers.pincher", "args") == Some("[\"supervised\"]")
              && Setting(file, "mcp_servers.pincher.env", "PINCHER_DATA_DIR") == Some(dataDir)
              && Setting(file, "mcp_servers.pincher.env", "PINCHER_AUTO_RESTART_ON_DRIFT") == Some("\"1\"")
  {
    var block := Wrap(Interior(command, dataDir));
    hide WriteConfig, Interior, Wrap, Lines, Find, Index, START, END;
    if WriteConfig(x, block).1 != Skipped {
      var before, after := FileLines(x, block);
      BlockLines(command, dataDir);
      HeadOpensNothing();
      hide Head, Server, Env, ENTRY, ENV;
      BlockSettings(before + Head(), command, dataDir, after);
      Reassociated(before, Head(), [ENTRY] + Server(command) + [ENV] + Env(dataDir), after);
    }
  }

  lemma Reassociated(a: seq<string>, b: seq<string>, c: seq<string>, d: seq<string>)
    ensures a + (b + c) + d == (a + b) + c + d
  {
  }

  lemma HeadOpensNothing()
    ensures forall l | l in Head() :: l != "[mcp_servers.pincher]" && l != "[mcp_servers.pincher.env]"
  {
    NoHeaders();
    hide START, RERUN, SUPERVISED, RESPAWN, ISOLATED;
  }

  /** The block stands between the documented marker lines. */
  lemma BlockIsMarked(interior: string)
    ensures var start := "# >>> pincher:start " + "(managed by `pincher" + " init --target=codex`" + ") >>>";
            Wrap(interior) == start + "\n" + interior + "\n" + "# <<< pincher:end <<<"
  {
  }

  /** A write is refused exactly if the file names the server entry and has no block to replace; it then stays as is. */
  lemma RefusedIff(x: string, block: string)
    ensures WriteConfig(x, block).1 == Skipped
            <==> Contains(x, "[mcp_servers.pincher]") && !(0 <= Index(x, START) < Index(x, END))
    ensures WriteConfig(x, block).1 == Skipped ==> WriteConfig(x, block).0 == x
  {
    hide Contains, Index, START, END;
    NoneFound(x, ENTRY);
    if x == "" { NothingInNothing(ENTRY); }
  }
}

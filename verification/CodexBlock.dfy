/**
 * The managed block that `pincher init --target=codex` keeps in another program's config file: the text between a
 * start and an end marker belongs to pincher, everything else to the file's owner. A write replaces the block in
 * place, appends it, or refuses if the server entry stands outside a block.
 */
module CodexBlock {

  // "# >>> pincher:start (managed by `pincher init --target=codex`) >>>"
  const OPENING := "# >>> pincher:start "
  const MANAGED := "(managed by `pincher"
  const COMMAND := " init --target=codex`"
  const CLOSING := ") >>>"
  const START := OPENING + MANAGED + COMMAND + CLOSING
  const END := "# <<< pincher:end <<<"
  const ENTRY := "[mcp_servers.pincher]"

  datatype Action = Wrote | Updated | Skipped | Appended

  predicate OccursAt(s: string, pat: string, i: nat) {
    i + |pat| <= |s| && s[i..i + |pat|] == pat
  }

  ghost predicate Contains(s: string, pat: string) {
    exists i :: OccursAt(s, pat, i)
  }

  /** `strings.Index`: the first occurrence, or -1. */
  function Index(s: string, pat: string, from: nat := 0): (r: int)
    ensures r == -1 || (from <= r && OccursAt(s, pat, r))
    ensures forall k: nat | from <= k && (r < 0 || k < r) :: !OccursAt(s, pat, k)
    decreases |s| - from
  {
    if from > |s| then -1
    else if OccursAt(s, pat, from) then from
    else Index(s, pat, from + 1)
  }

  predicate NewlinesOnly(s: string) {
    forall c | c in s :: c == '\n'
  }

  function TrimRight(s: string): (r: string)
    ensures r <= s && NewlinesOnly(s[|r|..])
    ensures r != "" ==> r[|r| - 1] != '\n'
  {
    if s != "" && s[|s| - 1] == '\n' then
      var r := TrimRight(s[..|s| - 1]);
      assert s[|r|..] == s[..|s| - 1][|r|..] + ['\n'];
      r
    else s
  }

  function TrimLeft(s: string): (r: string)
    ensures |r| <= |s| && r == s[|s| - |r|..] && NewlinesOnly(s[..|s| - |r|])
    ensures r != "" ==> r[0] != '\n'
  {
    if s != "" && s[0] == '\n' then
      var r := TrimLeft(s[1..]);
      assert s[..|s| - |r|] == ['\n'] + s[1..][..|s| - 1 - |r|];
      r
    else s
  }

  // The constant lines of the block.
  const RERUN := "# Re-run `pincher init" + " --target=codex` to" + " refresh this block."
  const SUPERVISED := "# `command` uses the" + " supervised wrapper" + " so dropped MCP sessions"
  const RESPAWN := "# auto-respawn without" + " manual /mcp;" + " PINCHER_DATA_DIR isolates"
  const ISOLATED := "# Codex's pincher DB" + " from other agent CLIs" + " (Claude Code, etc.)."
  const ARGS := "args = [" + "\"supervised\"" + "]"
  const ENV := "[mcp_servers." + "pincher" + ".env]"
  const RESTART := "PINCHER_AUTO_" + "RESTART_ON_DRIFT" + " = \"1\""

  function Line(text: string, rest: string): string { text + "\n" + rest }

  /** The lines between the markers; the arguments are the `%q` forms of the two paths. */
  function Interior(command: string, dataDir: string): string {
    Line(RERUN, Line(SUPERVISED, Line(RESPAWN, Line(ISOLATED, Entry(command, dataDir)))))
  }

  function Entry(command: string, dataDir: string): string {
    Line(ENTRY, Line("command = " + command,
        Line(ARGS, Line("", Line(ENV, Line("PINCHER_DATA_DIR = " + dataDir, RESTART))))))
  }

  function Wrap(interior: string): string {
    START + "\n" + interior + "\n" + END
  }

  /** Text before the block, the block, text after it, with their separators. */
  function Assemble(before: string, block: string, after: string): string {
    before + (if before != "" then "\n\n" else "") + block + if after != "" then "\n\n" + after else "\n"
  }

  function WriteConfig(existing: string, block: string): (string, Action) {
    if existing == "" then (block + "\n", Wrote)
    else
      var startIdx, endIdx := Index(existing, START), Index(existing, END);
      if startIdx >= 0 && endIdx > startIdx then
        var before := TrimRight(existing[..startIdx]);
        var after := TrimLeft(existing[endIdx + |END|..]);
        (Assemble(before, block, after), Updated)
      else if Index(existing, ENTRY) >= 0 then (existing, Skipped)
      else (TrimRight(existing) + "\n\n" + block + "\n", Appended)
  }

  /** The block's interior names the entry and contains neither marker. */
  ghost predicate GoodInterior(interior: string) {
    Contains(interior, ENTRY) && !Contains(interior, START) && !Contains(interior, END)
  }

  predicate Plain(s: string) { '\n' !in s && '<' !in s }

  lemma HeadPlain()
    ensures Plain(OPENING + MANAGED)
  {
    assert Plain(OPENING) && Plain(MANAGED);
    hide OPENING, MANAGED;
    PlainJoin(OPENING, MANAGED);
  }

  lemma TailPlain()
    ensures Plain(COMMAND + CLOSING)
  {
    assert Plain(COMMAND) && Plain(CLOSING);
    hide COMMAND, CLOSING;
    PlainJoin(COMMAND, CLOSING);
  }

  lemma StartPlain()
    ensures Plain(START) && START != ""
  {
    assert START == (OPENING + MANAGED) + (COMMAND + CLOSING) && |OPENING| > 0;
    HeadPlain();
    TailPlain();
    hide START, OPENING, MANAGED, COMMAND, CLOSING;
    PlainJoin(OPENING + MANAGED, COMMAND + CLOSING);
  }

  lemma PlainJoin(a: string, b: string)
    requires Plain(a) && Plain(b)
    ensures Plain(a + b)
  {
  }

  lemma EndOneLine()
    ensures '\n' !in END && |END| > 2 && END[2] == '<'
  {
  }

  lemma EntryOneLine()
    ensures '\n' !in ENTRY && ENTRY != ""
  {
  }

  lemma OccursChar(s: string, pat: string, k: nat, m: nat)
    requires OccursAt(s, pat, k) && k <= m < k + |pat|
    ensures s[m] == pat[m - k]
  {
    assert s[k..k + |pat|][m - k] == s[m];
  }

  /** An occurrence of a one-line pattern lies on one side of a newline. */
  lemma OneSide(a: string, b: string, pat: string, k: nat)
    requires '\n' !in pat && pat != "" && OccursAt(a + "\n" + b, pat, k)
    ensures OccursAt(a, pat, k) || (k > |a| && OccursAt(b, pat, k - |a| - 1))
  {
    var s := a + "\n" + b;
    if k <= |a| < k + |pat| {
      OccursChar(s, pat, k, |a|);
    } else if k + |pat| <= |a| {
      assert s[k..k + |pat|] == a[k..k + |pat|];
    } else {
      assert s[k..k + |pat|] == b[k - |a| - 1..k - |a| - 1 + |pat|];
    }
  }

  lemma OccursInLonger(pre: string, s: string, post: string, pat: string, k: nat)
    requires OccursAt(s, pat, k)
    ensures OccursAt(pre + s + post, pat, |pre| + k)
  {
    assert (pre + s + post)[|pre| + k..|pre| + k + |pat|] == s[k..k + |pat|];
  }

  /** The first occurrence is determined. */
  lemma IndexIs(s: string, pat: string, r: nat)
    requires OccursAt(s, pat, r) && forall k: nat | k < r :: !OccursAt(s, pat, k)
    ensures Index(s, pat) == r
  {
  }

  lemma NoneFound(s: string, pat: string)
    ensures Index(s, pat) == -1 <==> !Contains(s, pat)
  {
    if Index(s, pat) >= 0 { assert OccursAt(s, pat, Index(s, pat)); }
  }

  /** With nothing before the last newline, the pattern after it is found first. */
  lemma FirstAfterNewline(a: string, pat: string, post: string)
    requires '\n' !in pat && pat != "" && !Contains(a, pat)
    ensures Index(a + "\n" + pat + post, pat) == |a| + 1
  {
    var b := pat + post;
    var s := a + "\n" + b;
    assert a + "\n" + pat + post == s;
    assert s[|a| + 1..|a| + 1 + |pat|] == pat;
    forall k: nat | k < |a| + 1 ensures !OccursAt(s, pat, k) {
      if OccursAt(s, pat, k) { OneSide(a, b, pat, k); assert Contains(a, pat); }
    }
    IndexIs(s, pat, |a| + 1);
  }

  lemma ContainsOneSide(a: string, b: string, pat: string)
    requires '\n' !in pat && pat != "" && !Contains(a, pat) && !Contains(b, pat)
    ensures !Contains(a + "\n" + b, pat)
  {
    if k :| OccursAt(a + "\n" + b, pat, k) { OneSide(a, b, pat, k); }
  }

  lemma EndNotInStart()
    ensures !Contains(START, END)
  {
    StartPlain();
    EndOneLine();
    hide START, END;
    NotWithin(START, END, '<', 2);
  }

  lemma NotWithin(s: string, pat: string, c: char, i: nat)
    requires c !in s && i < |pat| && pat[i] == c
    ensures !Contains(s, pat)
  {
    if k: nat :| OccursAt(s, pat, k) { OccursChar(s, pat, k, k + i); }
  }

  /** A pattern that starts with a character foreign to the prefix lies behind it. */
  lemma NotFromBefore(pre: string, s: string, pat: string)
    requires pat != "" && pat[0] !in pre && !Contains(s, pat)
    ensures !Contains(pre + s, pat)
  {
    forall k: nat ensures !OccursAt(pre + s, pat, k) {
      if k < |pre| {
        assert (pre + s)[k] == pre[k];
        FirstChar(pre + s, pat, k);
      } else if k + |pat| <= |pre + s| {
        assert (pre + s)[k..k + |pat|] == s[k - |pre|..k - |pre| + |pat|];
        assert !OccursAt(s, pat, k - |pre|);
      }
    }
  }

  lemma FirstChar(s: string, pat: string, k: nat)
    requires k < |s| && pat != ""
    ensures OccursAt(s, pat, k) ==> s[k] == pat[0]
  {
    if OccursAt(s, pat, k) { OccursChar(s, pat, k, k); }
  }

  predicate Unbracketed(s: string) { '<' !in s && '>' !in s }

  lemma Pieces(a: string, b: string, c: string)
    requires forall k | 0 <= k < |a| :: a[k] != '<' && a[k] != '>'
    requires forall k | 0 <= k < |b| :: b[k] != '<' && b[k] != '>'
    requires forall k | 0 <= k < |c| :: c[k] != '<' && c[k] != '>'
    ensures Unbracketed(a + b + c)
  {
  }

  lemma CommentsUnbracketed()
    ensures Unbracketed(RERUN) && Unbracketed(SUPERVISED) && Unbracketed(RESPAWN) && Unbracketed(ISOLATED)
  {
    hide Unbracketed;
    Pieces("# Re-run `pincher init", " --target=codex` to", " refresh this block.");
    Pieces("# `command` uses the", " supervised wrapper", " so dropped MCP sessions");
    Pieces("# auto-respawn without", " manual /mcp;", " PINCHER_DATA_DIR isolates");
    Pieces("# Codex's pincher DB", " from other agent CLIs", " (Claude Code, etc.).");
  }

  lemma SettingsUnbracketed()
    ensures Unbracketed(ARGS) && Unbracketed(ENV) && Unbracketed(RESTART) && Unbracketed(ENTRY) && Unbracketed("")
  {
    hide Unbracketed;
    Pieces("args = [", "\"supervised\"", "]");
    Pieces("[mcp_servers.", "pincher", ".env]");
    Pieces("PINCHER_AUTO_", "RESTART_ON_DRIFT", " = \"1\"");
    Pieces(ENTRY, "", "");
    assert ENTRY + "" + "" == ENTRY;
    Pieces("", "", "");
    assert "" + "" + "" == "";
  }

  predicate IsMarker(pat: string) { pat == START || pat == END }

  lemma MarkerShape(pat: string)
    requires IsMarker(pat)
    ensures |pat| > 2 && pat[0] == '#' && !Unbracketed(pat) && '\n' !in pat
  {
    StartPlain();
    EndOneLine();
    assert START[..|OPENING|] == OPENING;
    assert START[0] == OPENING[0] && START[2] == OPENING[2];
  }

  /** A line without the brackets that every marker has adds no marker. */
  lemma LineUnmarked(text: string, rest: string, pat: string)
    requires IsMarker(pat) && (Unbracketed(text) || !Contains(text, pat)) && !Contains(rest, pat)
    ensures !Contains(Line(text, rest), pat)
  {
    MarkerShape(pat);
    if Unbracketed(text) { BracketMissing(text, pat); }
    ContainsOneSide(text, rest, pat);
  }

  lemma BracketMissing(text: string, pat: string)
    requires Unbracketed(text) && !Unbracketed(pat)
    ensures !Contains(text, pat)
  {
    var c :| c in pat && c in ['<', '>'];
    var i :| 0 <= i < |pat| && pat[i] == c;
    NotWithin(text, pat, c, i);
  }

  lemma EntryUnmarked(command: string, dataDir: string, pat: string)
    requires IsMarker(pat) && !Contains(command, pat) && !Contains(dataDir, pat)
    ensures !Contains(Entry(command, dataDir), pat)
  {
    MarkerShape(pat);
    SettingsUnbracketed();
    hide Contains, Line, Unbracketed, IsMarker, ARGS, ENV, RESTART, ENTRY;
    BracketMissing(RESTART, pat);
    NotFromBefore("PINCHER_DATA_DIR = ", dataDir, pat);
    NotFromBefore("command = ", command, pat);
    var dir := Line("PINCHER_DATA_DIR = " + dataDir, RESTART);
    LineUnmarked("PINCHER_DATA_DIR = " + dataDir, RESTART, pat);
    LineUnmarked(ENV, dir, pat);
    LineUnmarked("", Line(ENV, dir), pat);
    LineUnmarked(ARGS, Line("", Line(ENV, dir)), pat);
    var rest := Line(ARGS, Line("", Line(ENV, dir)));
    LineUnmarked("command = " + command, rest, pat);
    LineUnmarked(ENTRY, Line("command = " + command, rest), pat);
  }

  /** If the paths contain no marker, neither does the block's interior. */
  lemma InteriorUnmarked(command: string, dataDir: string, pat: string)
    requires IsMarker(pat) && !Contains(command, pat) && !Contains(dataDir, pat)
    ensures !Contains(Interior(command, dataDir), pat)
  {
    EntryUnmarked(command, dataDir, pat);
    CommentsUnbracketed();
    hide Contains, Line, Unbracketed, IsMarker, RERUN, SUPERVISED, RESPAWN, ISOLATED, Entry;
    var entry := Entry(command, dataDir);
    LineUnmarked(ISOLATED, entry, pat);
    LineUnmarked(RESPAWN, Line(ISOLATED, entry), pat);
    LineUnmarked(SUPERVISED, Line(RESPAWN, Line(ISOLATED, entry)), pat);
    LineUnmarked(RERUN, Line(SUPERVISED, Line(RESPAWN, Line(ISOLATED, entry))), pat);
  }

  lemma LineContains(text: string, rest: string, pat: string)
    requires Contains(rest, pat)
    ensures Contains(Line(text, rest), pat)
  {
    var k: nat :| OccursAt(rest, pat, k);
    OccursInLonger(text + "\n", rest, "", pat, k);
    assert text + "\n" + rest + "" == Line(text, rest);
  }

  lemma EntryStarts(command: string, dataDir: string)
    ensures Contains(Entry(command, dataDir), ENTRY)
  {
    hide ENTRY;
    assert OccursAt(Entry(command, dataDir), ENTRY, 0);
  }

  lemma InteriorHasEntry(command: string, dataDir: string)
    ensures Contains(Interior(command, dataDir), ENTRY)
  {
    EntryStarts(command, dataDir);
    hide Contains, Line, Entry, RERUN, SUPERVISED, RESPAWN, ISOLATED;
    var entry := Entry(command, dataDir);
    LineContains(ISOLATED, entry, ENTRY);
    LineContains(RESPAWN, Line(ISOLATED, entry), ENTRY);
    LineContains(SUPERVISED, Line(RESPAWN, Line(ISOLATED, entry)), ENTRY);
    LineContains(RERUN, Line(SUPERVISED, Line(RESPAWN, Line(ISOLATED, entry))), ENTRY);
  }

  /** The block `pincher init` writes, for paths without markers, is one the results below speak of. */
  lemma InteriorIsGood(command: string, dataDir: string)
    requires forall pat | pat in [START, END] :: !Contains(command, pat) && !Contains(dataDir, pat)
    ensures GoodInterior(Interior(command, dataDir))
  {
    hide Contains, Interior;
    assert START in [START, END] && END in [START, END];
    InteriorUnmarked(command, dataDir, START);
    InteriorUnmarked(command, dataDir, END);
    InteriorHasEntry(command, dataDir);
  }

  function Lead(before: string): string {
    if before != "" then before + "\n\n" else ""
  }

  /** A one-line pattern after clean text is found where it stands. */
  lemma FirstAfterLead(before: string, pat: string, tail: string)
    requires '\n' !in pat && pat != "" && !Contains(before, pat)
    ensures Index(Lead(before) + pat + tail, pat) == |Lead(before)|
  {
    hide Index, Contains;
    if before == "" { FirstOfAll(pat, tail); } else { FirstAfterText(before, pat, tail); }
  }

  lemma FirstOfAll(pat: string, tail: string)
    ensures Index("" + pat + tail, pat) == 0
  {
    hide Index;
    assert OccursAt("" + pat + tail, pat, 0);
    IndexIs("" + pat + tail, pat, 0);
  }

  lemma FirstAfterText(before: string, pat: string, tail: string)
    requires '\n' !in pat && pat != "" && !Contains(before, pat)
    ensures Index(before + "\n\n" + pat + tail, pat) == |before| + 2
  {
    hide Index, Contains;
    NothingInNothing(pat);
    ContainsOneSide(before, "", pat);
    assert before + "\n" + "" == before + "\n";
    FirstAfterNewline(before + "\n", pat, tail);
    assert before + "\n" + "\n" + pat + tail == before + "\n\n" + pat + tail;
  }

  /** Likewise for a pattern below another line. */
  lemma FirstBelow(before: string, line: string, interior: string, pat: string, post: string)
    requires '\n' !in pat && pat != "" && !Contains(before, pat) && !Contains(line, pat) && !Contains(interior, pat)
    ensures Index(Lead(before) + line + "\n" + interior + "\n" + pat + post, pat)
            == |Lead(before)| + |line| + 1 + |interior| + 1
  {
    hide Index, Contains;
    LeadUnmarked(before, line, pat);
    ContainsOneSide(Lead(before) + line, interior, pat);
    FirstAfterNewline(Lead(before) + line + "\n" + interior, pat, post);
  }

  lemma LeadUnmarked(before: string, line: string, pat: string)
    requires '\n' !in pat && pat != "" && !Contains(before, pat) && !Contains(line, pat)
    ensures !Contains(Lead(before) + line, pat)
  {
    hide Contains;
    NothingInNothing(pat);
    ContainsOneSide(before, "", pat);
    assert before + "\n" + "" == before + "\n";
    ContainsOneSide(before + "\n", line, pat);
    assert Lead(before) + line == if before == "" then line else before + "\n" + "\n" + line;
  }

  lemma Regrouped(lead: string, first: string, interior: string, last: string, post: string)
    ensures var all := lead + (first + "\n" + interior + "\n" + last) + post;
            && all == lead + first + ("\n" + interior + "\n" + last + post)
            && all == lead + first + "\n" + interior + "\n" + last + post
  {
  }

  /** In text with no marker before the block, the block's own markers are the first ones. */
  lemma FirstMarkers(before: string, interior: string, post: string)
    requires GoodInterior(interior) && !Contains(before, START) && !Contains(before, END)
    ensures Index(Lead(before) + Wrap(interior) + post, START) == |Lead(before)|
    ensures Index(Lead(before) + Wrap(interior) + post, END) == |Lead(before)| + |Wrap(interior)| - |END|
  {
    hide START, END, Index, Contains, Lead;
    StartPlain();
    EndOneLine();
    EndNotInStart();
    FirstAfterLead(before, START, "\n" + interior + "\n" + END + post);
    FirstBelow(before, START, interior, END, post);
    Regrouped(Lead(before), START, interior, END, post);
  }

  lemma NothingInNothing(pat: string)
    requires pat != ""
    ensures !Contains("", pat)
  {
  }

  lemma TrimRightPad(s: string)
    requires s != "" ==> s[|s| - 1] != '\n'
    ensures TrimRight(Lead(s)) == s
  {
    if s != "" {
      var one := s + "\n";
      assert one[..|one| - 1] == s;
      assert TrimRight(one) == TrimRight(s) == s;
      assert Lead(s)[..|Lead(s)| - 1] == one;
    }
  }

  lemma TrimLeftPad(s: string)
    requires s != "" ==> s[0] != '\n'
    ensures TrimLeft("\n\n" + s) == s && (s == "" ==> TrimLeft("\n") == s)
  {
    TrimLeftStep(s);
    TrimLeftStep("\n" + s);
    assert "\n\n" + s == "\n" + ("\n" + s);
    assert "\n" + "" == "\n";
  }

  lemma TrimLeftStep(s: string)
    ensures TrimLeft("\n" + s) == TrimLeft(s)
  {
    assert ("\n" + s)[1..] == s;
  }

  /** The text before and after a block with known markers. */
  lemma Slices(lead: string, block: string, post: string, tail: nat)
    requires tail <= |block|
    ensures var out := lead + block + post;
            out[..|lead|] == lead && out[|lead| + |block| - tail + tail..] == post
  {
  }

  lemma AssembledParts(before: string, block: string, after: string)
    requires (before != "" ==> before[|before| - 1] != '\n') && (after != "" ==> after[0] != '\n')
    ensures var post := if after != "" then "\n\n" + after else "\n";
            && Assemble(before, block, after) == Lead(before) + block + post
            && TrimRight(Lead(before)) == before && TrimLeft(post) == after
  {
    hide TrimRight, TrimLeft;
    TrimRightPad(before);
    TrimLeftPad(after);
  }

  /** An assembled file is a fixed point. */
  lemma AssembledIsFixed(before: string, interior: string, after: string)
    requires GoodInterior(interior) && !Contains(before, START) && !Contains(before, END)
    requires (before != "" ==> before[|before| - 1] != '\n') && (after != "" ==> after[0] != '\n')
    ensures var out := Assemble(before, Wrap(interior), after); WriteConfig(out, Wrap(interior)) == (out, Updated)
  {
    BlockLonger(interior);
    hide *;
    var block := Wrap(interior);
    var post := if after != "" then "\n\n" + after else "\n";
    AssembledParts(before, block, after);
    FirstMarkers(before, interior, post);
    var s, e := WriteUpdates(Lead(before) + block + post, block);
    Slices(Lead(before), block, post, |END|);
  }

  /** A part of a text has no pattern the text itself lacks. */
  lemma ContainsInPart(s: string, lo: nat, hi: nat, pat: string, k: nat)
    requires lo <= hi <= |s| && OccursAt(s[lo..hi], pat, k)
    ensures OccursAt(s, pat, lo + k)
  {
    var part, m := s[lo..hi], k + |pat|;
    assert part[k..m] == pat && |part| == hi - lo && m <= hi - lo;
    forall i | 0 <= i < |pat| ensures s[lo + k..lo + m][i] == pat[i] {
      assert pat[i] == part[k..m][i] == part[k + i] == s[lo + (k + i)];
    }
  }

  /** Updating in place gives an assembled file whose leading text has no marker. */
  lemma UpdatedIsFixed(x: string, interior: string)
    requires GoodInterior(interior) && 0 <= Index(x, START) < Index(x, END)
    ensures WriteConfig(x, Wrap(interior)).1 == Updated && Fixed(x, interior)
  {
    hide Wrap, TrimRight, TrimLeft, Assemble, Index, START, END, WriteConfig, OccursAt;
    var s, e := WriteUpdates(x, Wrap(interior));
    var before, after := TrimRight(x[..s]), TrimLeft(x[e + |END|..]);
    assert x[..s][..|before|] == before;
    StartPlain();
    EndOneLine();
    NoMarkerInLead(x, s, |before|, START);
    NoMarkerInLead(x, s, |before|, END);
    AssembledIsFixed(before, interior, after);
  }

  lemma WriteUpdates(x: string, block: string) returns (s: nat, e: nat)
    requires 0 <= Index(x, START) < Index(x, END)
    ensures s == Index(x, START) < e == Index(x, END) && e + |END| <= |x|
    ensures WriteConfig(x, block) == (Assemble(TrimRight(x[..s]), block, TrimLeft(x[e + |END|..])), Updated)
  {
    hide START, END, TrimRight, TrimLeft, Assemble;
    s, e := Index(x, START), Index(x, END);
    assert OccursAt(x, END, e);
    assert x != "";
  }

  lemma NoMarkerInLead(x: string, s: nat, n: nat, pat: string)
    requires n <= s <= |x| && pat != "" && (Index(x, pat) < 0 || s <= Index(x, pat))
    ensures !Contains(x[..s][..n], pat)
  {
    assert x[..s][..n] == x[0..n];
    if k: nat :| OccursAt(x[0..n], pat, k) { ContainsInPart(x, 0, n, pat, k); }
  }

  ghost predicate Fixed(x: string, interior: string) {
    WriteConfig(WriteConfig(x, Wrap(interior)).0, Wrap(interior)).0 == WriteConfig(x, Wrap(interior)).0
  }

  function Append(y: string, interior: string): string {
    y + "\n\n" + Wrap(interior) + "\n"
  }

  lemma TrimmedTail(x: string, m: nat)
    requires |TrimRight(x)| <= m < |x|
    ensures x[m] == '\n'
  {
    var tail := x[|TrimRight(x)|..];
    assert tail[m - |TrimRight(x)|] in tail;
  }

  /** A pattern found in x before its trailing newlines is found at the same place after appending. */
  lemma SamePlace(x: string, interior: string, pat: string, k: nat)
    requires '\n' !in pat && pat != ""
    ensures OccursAt(x, pat, k) ==> k + |pat| <= |TrimRight(x)| && OccursAt(Append(TrimRight(x), interior), pat, k)
    ensures k <= |TrimRight(x)| && OccursAt(Append(TrimRight(x), interior), pat, k) ==> OccursAt(x, pat, k)
  {
    hide *;
    var y, b := TrimRight(x), "\n" + Wrap(interior) + "\n";
    var out := Append(y, interior);
    AppendIs(y, interior);
    if OccursAt(x, pat, k) {
      NotInTail(x, pat, k);
      SamePart(x, y, pat, k);
      SamePart(out, y, pat, k);
    }
    if k <= |y| && OccursAt(out, pat, k) {
      OneSide(y, b, pat, k);
      if OccursAt(y, pat, k) { SamePart(x, y, pat, k); }
    }
  }

  lemma AppendIs(y: string, interior: string)
    ensures Append(y, interior) == y + "\n" + ("\n" + Wrap(interior) + "\n") && y <= Append(y, interior)
  {
    hide Wrap;
  }

  /** A one-line pattern does not reach into the trailing newlines. */
  lemma NotInTail(x: string, pat: string, k: nat)
    requires '\n' !in pat && pat != "" && OccursAt(x, pat, k)
    ensures k + |pat| <= |TrimRight(x)|
  {
    if |TrimRight(x)| < k + |pat| {
      var m := k + |pat| - 1;
      TrimmedTail(x, m);
      OccursChar(x, pat, k, m);
    }
  }

  lemma SamePart(s: string, y: string, pat: string, k: nat)
    requires y <= s
    ensures k + |pat| <= |y| ==> (OccursAt(s, pat, k) <==> OccursAt(y, pat, k))
    ensures OccursAt(y, pat, k) ==> k + |pat| <= |y| && OccursAt(s, pat, k)
  {
    assert k + |pat| <= |y| ==> s[k..k + |pat|] == y[k..k + |pat|];
  }

  lemma AppendedEnd(y: string, interior: string)
    requires GoodInterior(interior) && !Contains(y, END)
    ensures Index(Append(y, interior), END) == |y| + 2 + |Wrap(interior)| - |END|
  {
    EndOneLine();
    EndNotInStart();
    hide START, END, Index, Contains;
    NothingInNothing(END);
    ContainsOneSide(y, "", END);
    ContainsOneSide(y + "\n" + "", START, END);
    ContainsOneSide(y + "\n" + "" + "\n" + START, interior, END);
    var a := y + "\n" + "" + "\n" + START + "\n" + interior;
    FirstAfterNewline(a, END, "\n");
    assert Append(y, interior) == a + "\n" + END + "\n";
  }

  lemma AppendedHasEntry(y: string, interior: string)
    requires GoodInterior(interior)
    ensures Index(Append(y, interior), ENTRY) >= 0
  {
    var k: nat :| OccursAt(interior, ENTRY, k);
    hide ENTRY, START, END;
    var pre, post := y + "\n\n" + START + "\n", "\n" + END + "\n";
    OccursInLonger(pre, interior, post, ENTRY, k);
    assert Append(y, interior) == pre + interior + post;
    NoneFound(Append(y, interior), ENTRY);
  }

  /** If the next write cuts before the appended block, it shortens the file. */
  lemma CutShortens(y: string, interior: string)
    requires GoodInterior(interior) && !Contains(y, END)
    requires var out := Append(y, interior);
             0 <= Index(out, START) <= |y| + 2 && |Lead(TrimRight(out[..Index(out, START)]))| < |y| + 2
    ensures var out := Append(y, interior); WriteConfig(out, Wrap(interior)).0 != out
  {
    var out, block := Append(y, interior), Wrap(interior);
    AppendedEnd(y, interior);
    StartPlain();
    BlockLonger(interior);
    var s, e := WriteUpdates(out, block);
    hide START, END, Index, Wrap, WriteConfig, TrimRight;
    assert out[e + |END|..] == "\n";
    TrimLeftPad("");
    var before := TrimRight(out[..s]);
    assert |Assemble(before, block, "")| == |Lead(before)| + |block| + 1;
  }

  lemma BlockLonger(interior: string)
    ensures |Wrap(interior)| > |END|
  {
  }

  /** A file with no entry, and not both markers in order. */
  ghost predicate Appends(x: string) {
    x != "" && !(0 <= Index(x, START) < Index(x, END)) && !Contains(x, ENTRY)
  }

  lemma AppendedNewlines(x: string, interior: string)
    requires GoodInterior(interior) && Appends(x) && TrimRight(x) == ""
    ensures !Fixed(x, interior)
  {
    hide START, END, Index, Contains, WriteConfig, TrimRight, Wrap, Appends;
    AppendWrites(x, interior);
    StartPlain();
    EndOneLine();
    NothingInNothing(START);
    NothingInNothing(END);
    AppendedStart(interior);
    AllNewlinesTrimmed();
    CutShortens("", interior);
  }

  lemma AppendedStart(interior: string)
    ensures Index(Append("", interior), START) == 2 && Append("", interior)[..2] == "\n\n"
  {
    hide START, END, Index, Contains;
    StartPlain();
    NothingInNothing(START);
    ContainsOneSide("", "", START);
    assert "" + "\n" + "" == "\n";
    var post := "\n" + interior + "\n" + END + "\n";
    FirstAfterNewline("\n", START, post);
    assert Append("", interior) == "\n" + "\n" + START + post;
  }

  lemma AllNewlinesTrimmed()
    ensures TrimRight("\n\n") == ""
  {
    assert "\n\n"[..1] == "\n";
  }

  lemma AppendWrites(x: string, interior: string)
    requires Appends(x)
    ensures WriteConfig(x, Wrap(interior)) == (Append(TrimRight(x), interior), Appended)
  {
    NoneFound(x, ENTRY);
  }

  lemma NoMarkerInTrimmed(x: string, interior: string, pat: string)
    requires '\n' !in pat && pat != "" && !Contains(x, pat)
    ensures !Contains(TrimRight(x), pat)
  {
    if k: nat :| OccursAt(TrimRight(x), pat, k) {
      assert x[0..|TrimRight(x)|] == TrimRight(x);
      ContainsInPart(x, 0, |TrimRight(x)|, pat, k);
    }
  }

  /** No marker, some text: the appended block is found again and rewritten as it is. */
  lemma AppendedPlain(x: string, interior: string)
    requires GoodInterior(interior) && Appends(x) && TrimRight(x) != "" && !Contains(x, START) && !Contains(x, END)
    ensures Fixed(x, interior)
  {
    AppendWrites(x, interior);
    StartPlain();
    EndOneLine();
    hide START, END, WriteConfig, Wrap, Index;
    NoMarkerInTrimmed(x, interior, START);
    NoMarkerInTrimmed(x, interior, END);
    AssembledIsFixed(TrimRight(x), interior, "");
    assert Assemble(TrimRight(x), Wrap(interior), "") == Append(TrimRight(x), interior);
  }

  /** A start marker alone: the next write cuts from it to the end of the appended block. */
  lemma AppendedCut(x: string, interior: string)
    requires GoodInterior(interior) && Appends(x) && Contains(x, START) && !Contains(x, END)
    ensures !Fixed(x, interior)
  {
    AppendWrites(x, interior);
    StartPlain();
    EndOneLine();
    NoneFound(x, START);
    var s: nat, y, out := Index(x, START), TrimRight(x), Append(TrimRight(x), interior);
    assert OccursAt(x, START, s);
    hide START, END, WriteConfig, Wrap, TrimRight;
    SamePlace(x, interior, START, s);
    NoMarkerInTrimmed(x, interior, END);
    forall k: nat | k < s ensures !OccursAt(out, START, k) { SamePlace(x, interior, START, k); }
    IndexIs(out, START, s);
    CutShortens(y, interior);
  }

  /** An end marker first: the appended block's entry makes the next write refuse. */
  lemma AppendedSkipped(x: string, interior: string)
    requires GoodInterior(interior) && Appends(x) && Contains(x, END)
    ensures Fixed(x, interior)
  {
    AppendWrites(x, interior);
    StartPlain();
    EndOneLine();
    NoneFound(x, END);
    var e: nat, y, out := Index(x, END), TrimRight(x), Append(TrimRight(x), interior);
    assert OccursAt(x, END, e);
    AppendedHasEntry(y, interior);
    assert out != "";
    hide START, END, ENTRY, Wrap, TrimRight, Append;
    SamePlace(x, interior, END, e);
    forall k: nat | k < e ensures !OccursAt(out, END, k) && !OccursAt(out, START, k) {
      SamePlace(x, interior, END, k);
      SamePlace(x, interior, START, k);
    }
    IndexIs(out, END, e);
  }

  /**
   * Writing twice equals writing once, except after two kinds of file: newlines only, and a start marker with neither
   * end marker nor entry.
   */
  lemma IdempotentIff(x: string, interior: string)
    requires GoodInterior(interior)
    ensures Fixed(x, interior) <==>
            !(x != "" && NewlinesOnly(x)) && !(Contains(x, START) && !Contains(x, END) && !Contains(x, ENTRY))
  {
    NewlinesTrimToNothing(x);
    if NewlinesOnly(x) { MarkersNotNewlines(x); }
    NoneFound(x, START);
    NoneFound(x, END);
    NoneFound(x, ENTRY);
    hide START, END, ENTRY, NewlinesOnly, Contains, Index;
    if x == "" {
      WriteFresh(interior);
    } else if 0 <= Index(x, START) < Index(x, END) {
      UpdatedIsFixed(x, interior);
    } else if !Appends(x) {
      SkippedIsFixed(x, interior);
    } else if TrimRight(x) == "" {
      AppendedNewlines(x, interior);
    } else if Contains(x, END) {
      AppendedSkipped(x, interior);
    } else if Contains(x, START) {
      AppendedCut(x, interior);
    } else {
      AppendedPlain(x, interior);
    }
  }

  lemma WriteFresh(interior: string)
    requires GoodInterior(interior)
    ensures Fixed("", interior)
  {
    StartPlain();
    EndOneLine();
    NothingInNothing(START);
    NothingInNothing(END);
    hide START, END, Wrap, Index;
    AssembledIsFixed("", interior, "");
    assert Assemble("", Wrap(interior), "") == Wrap(interior) + "\n";
  }

  lemma SkippedIsFixed(x: string, interior: string)
    requires x != "" && !(0 <= Index(x, START) < Index(x, END)) && Contains(x, ENTRY)
    ensures WriteConfig(x, Wrap(interior)) == (x, Skipped) && Fixed(x, interior)
  {
    NoneFound(x, ENTRY);
  }

  lemma {:induction false} NewlinesTrimToNothing(x: string)
    ensures NewlinesOnly(x) <==> TrimRight(x) == ""
  {
    var y := TrimRight(x);
    assert y == "" ==> x[|y|..] == x;
    if y != "" { assert y[|y| - 1] == x[|y| - 1] && x[|y| - 1] in x; }
  }

  lemma MarkersNotNewlines(x: string)
    requires NewlinesOnly(x)
    ensures !Contains(x, START) && !Contains(x, END) && !Contains(x, ENTRY)
  {
    StartPlain();
    EndOneLine();
    EntryOneLine();
    hide START, END, ENTRY;
    NotInNewlines(x, START);
    NotInNewlines(x, END);
    NotInNewlines(x, ENTRY);
  }

  lemma NotInNewlines(x: string, pat: string)
    requires NewlinesOnly(x) && pat != "" && '\n' !in pat
    ensures !Contains(x, pat)
  {
    assert pat[0] in pat;
    if k: nat :| OccursAt(x, pat, k) {
      NewlineAt(x, k);
      OccursChar(x, pat, k, k);
    }
  }

  lemma NewlineAt(x: string, k: nat)
    requires NewlinesOnly(x) && k < |x|
    ensures x[k] == '\n'
  {
    assert x[k] in x;
  }

  /** `middle` with `before` and `after` around it, and newlines only at the two seams. */
  ghost predicate Around(s: string, before: string, middle: string, after: string) {
    exists n, n' :: NewlinesOnly(n) && NewlinesOnly(n') && s == before + n + middle + n' + after
  }

  lemma AroundBy(s: string, before: string, n: string, middle: string, n': string, after: string)
    requires NewlinesOnly(n) && NewlinesOnly(n') && s == before + n + middle + n' + after
    ensures Around(s, before, middle, after)
  {
  }

  /** An update touches newlines at the seams and nothing else around the block. */
  lemma UpdateKeepsSurroundings(x: string, interior: string) returns (before: string, after: string)
    requires 0 <= Index(x, START) < Index(x, END)
    ensures Index(x, END) + |END| <= |x| && Around(x, before, x[Index(x, START)..Index(x, END) + |END|], after)
    ensures Around(WriteConfig(x, Wrap(interior)).0, before, Wrap(interior), after)
  {
    hide *;
    var s, e := WriteUpdates(x, Wrap(interior));
    before, after := TrimRight(x[..s]), TrimLeft(x[e + |END|..]);
    ThreeParts(x, s, e + |END|);
    SeamsOf(x[..s], x[s..e + |END|], x[e + |END|..]);
    AssembledAround(before, Wrap(interior), after);
  }

  lemma SeamsOf(left: string, mid: string, right: string)
    ensures Around(left + mid + right, TrimRight(left), mid, TrimLeft(right))
  {
    var n := TrimmedOffRight(left);
    var n' := TrimmedOffLeft(right);
    hide *;
    Regroup(TrimRight(left), n, mid, n', TrimLeft(right));
    AroundBy(left + mid + right, TrimRight(left), n, mid, n', TrimLeft(right));
  }

  lemma ThreeParts(x: string, s: nat, e: nat)
    requires s <= e <= |x|
    ensures x == x[..s] + x[s..e] + x[e..]
  {
  }

  lemma TrimmedOffRight(s: string) returns (n: string)
    ensures NewlinesOnly(n) && s == TrimRight(s) + n
  {
    n := s[|TrimRight(s)|..];
  }

  lemma TrimmedOffLeft(s: string) returns (n: string)
    ensures NewlinesOnly(n) && s == n + TrimLeft(s)
  {
    n := s[..|s| - |TrimLeft(s)|];
  }

  lemma Regroup(a: string, b: string, c: string, d: string, e: string)
    ensures (a + b) + c + (d + e) == a + b + c + d + e
  {
  }

  lemma AssembledAround(before: string, block: string, after: string)
    ensures Around(Assemble(before, block, after), before, block, after)
  {
    var n := if before != "" then "\n\n" else "";
    var n' := if after != "" then "\n\n" else "\n";
    assert Assemble(before, block, after) == before + n + block + n' + after;
    AroundBy(Assemble(before, block, after), before, n, block, n', after);
  }

  /** Appending keeps the old text up to its trailing newlines. */
  lemma AppendKeepsText(x: string, interior: string)
    requires Appends(x)
    ensures Around(WriteConfig(x, Wrap(interior)).0, TrimRight(x), Wrap(interior), "")
    ensures Around(x, TrimRight(x), "", "")
  {
    AppendWrites(x, interior);
    var text := TrimRight(x);
    hide Wrap, WriteConfig;
    assert x == text + x[|text|..] + "" + "" + "";
    AroundBy(x, text, x[|text|..], "", "", "");
    assert Append(text, interior) == text + "\n\n" + Wrap(interior) + "\n" + "";
    AroundBy(Append(text, interior), text, "\n\n", Wrap(interior), "\n", "");
  }

  /** For the block actually written: re-running `init` changes nothing, except after the two kinds of file. */
  lemma RerunChangesNothingIff(x: string, command: string, dataDir: string)
    requires forall pat | pat in [START, END] :: !Contains(command, pat) && !Contains(dataDir, pat)
    ensures var block := Wrap(Interior(command, dataDir)); var once := WriteConfig(x, block).0;
            WriteConfig(once, block).0 == once <==>
            !(x != "" && NewlinesOnly(x)) && !(Contains(x, START) && !Contains(x, END) && !Contains(x, ENTRY))
  {
    InteriorIsGood(command, dataDir);
    hide START, END, ENTRY, NewlinesOnly, Contains, WriteConfig, Wrap, Interior, GoodInterior;
    IdempotentIff(x, Interior(command, dataDir));
  }
}

/** The persistent Python extractor: client and subprocess joined by byte pipes, responses never matched by id. */
module PythonDaemon {
  import opened Wrappers

  datatype Request = Request(id: int, path: string, content: string)
  datatype Response = Response(id: int, error: string, body: string)

  /** What one extraction produces; an uncaught exception produces nothing. */
  datatype Extraction = Extracted(error: string, body: string) | Uncaught

  /** The JSON codecs of both sides and the extraction itself. */
  datatype World = World(
    encodeRequest: Request -> Option<string>,
    decodeRequest: string -> Option<Request>,
    extractOne: (string, string) -> Extraction,
    encodeResponse: Response -> string,
    decodeResponse: string -> Option<Response>)

  predicate IsSpace(c: char) { c in " \t\n\r" }

  function Trim(s: string): string {
    if s != "" && IsSpace(s[0]) then Trim(s[1..])
    else if s != "" && IsSpace(s[|s| - 1]) then Trim(s[..|s| - 1])
    else s
  }

  /** A line of JSON: no newline inside, no space at either end. */
  predicate OneLine(s: string) {
    s != "" && '\n' !in s && !IsSpace(s[0]) && !IsSpace(s[|s| - 1])
  }

  /** Messages never span lines. */
  ghost predicate Framed(w: World) {
    && (forall r | w.encodeRequest(r).Some? :: OneLine(w.encodeRequest(r).value))
    && (forall r :: '\n' !in w.encodeResponse(r))
  }

  /** Both codecs are round trips. */
  ghost predicate Faithful(w: World) {
    && (forall r | w.encodeRequest(r).Some? :: w.decodeRequest(w.encodeRequest(r).value) == Some(r))
    && (forall r :: OneLine(w.encodeResponse(r)) && w.decodeResponse(w.encodeResponse(r)) == Some(r))
  }

  /** The daemon's answer to one input line. */
  datatype Served = Silent | Reply(resp: Response) | Died

  function Serve(w: World, line: string): Served {
    if Trim(line) == "" then Silent
    else match w.decodeRequest(Trim(line))
      case None => Reply(Response(-1, "bad request JSON", ""))
      case Some(req) =>
        match w.extractOne(req.path, req.content)
        case Uncaught => Died
        case Extracted(error, body) => Reply(Response(req.id, error, body))
  }

  /** Position of the first newline, or the length. */
  function NewlineAt(s: string): (n: nat)
    ensures n <= |s| && (forall i | 0 <= i < n :: s[i] != '\n') && (n < |s| ==> s[n] == '\n')
  {
    if s == "" || s[0] == '\n' then 0 else 1 + NewlineAt(s[1..])
  }

  lemma {:induction false} NewlineSplit(line: string, rest: string)
    requires '\n' !in line
    ensures NewlineAt(line + "\n" + rest) == |line|
  {
    if line != "" {
      NewlineSplit(line[1..], rest);
      assert (line + "\n" + rest)[1..] == line[1..] + "\n" + rest;
    }
  }

  class Process {
    const w: World
    var alive: bool
    var inbox: string    // bytes in the stdin pipe
    var todo: string     // rest of the line the daemon is writing
    var pending: string  // bytes written and not yet read by the client

    constructor (w: World)
      ensures this.w == w && Idle()
    {
      this.w := w;
      alive, inbox, todo, pending := true, "", "", "";
    }

    /** No request under way, no byte left over. */
    ghost predicate Idle()
      reads this
    {
      inbox == "" && todo == "" && pending == ""
    }

    /** One request line is under way and nothing else is in the pipes. */
    ghost predicate Serving(line: string)
      reads this
    {
      || (inbox == line + "\n" && todo == "" && pending == "")
      || (inbox == "" && todo == "" && pending == "" && Serve(w, line).Died? && !alive)
      || (inbox == "" && Serve(w, line).Reply? && pending + todo == w.encodeResponse(Serve(w, line).resp) + "\n")
    }

    /** Anything the subprocess or a killer can do, any number of times. */
    method Run(ghost line: string)
      modifies this
      requires '\n' !in line && Trim(line) != ""
      ensures old(Idle()) ==> Idle()
      ensures old(Serving(line)) ==> Serving(line)
    {
      var steps: nat := *;
      while steps > 0
        invariant old(Idle()) ==> Idle()
        invariant old(Serving(line)) ==> Serving(line)
      {
        var kill: bool := *;
        if kill {
          alive := false;
        } else if alive {
          Turn(line);
        }
        steps := steps - 1;
      }
    }

    /** One step of `run_daemon`: write some bytes, or take the next complete line. */
    method Turn(ghost line: string)
      modifies this
      requires '\n' !in line && Trim(line) != ""
      ensures old(Idle()) ==> Idle()
      ensures old(Serving(line)) ==> Serving(line)
    {
      if todo != "" {
        var n: nat :| n <= |todo|;
        assert todo == todo[..n] + todo[n..];
        pending, todo := pending + todo[..n], todo[n..];
        assert old(pending) + old(todo) == pending + todo;
      } else if NewlineAt(inbox) < |inbox| {
        if inbox == line + "\n" + "" { NewlineSplit(line, ""); }
        var n := NewlineAt(inbox);
        var next := inbox[..n];
        inbox := inbox[n + 1..];
        match Serve(w, next) {
          case Silent =>
          case Reply(resp) => todo := w.encodeResponse(resp) + "\n";
          case Died => alive := false;
        }
      }
    }
  }

  datatype Outcome = NotStarted | Unencodable | WriteFailed | NoLine | BlankLine | Garbled | ErrorReply | Answered

  /** What the client makes of a response line. */
  method Understand(w: World, line: string) returns (resp: Option<Response>, how: Outcome)
    ensures how in {BlankLine, Garbled, ErrorReply, Answered}
    ensures resp.Some? <==> how == Answered
    ensures how == BlankLine <==> line == ""
    ensures how == Garbled <==> line != "" && w.decodeResponse(line) == None
    ensures forall r | line != "" && w.decodeResponse(line) == Some(r) :: Understood(r, resp, how)
  {
    if line == "" { return None, BlankLine; }
    var decoded := w.decodeResponse(line);
    if decoded.None? { return None, Garbled; }
    if decoded.value.error != "" { return None, ErrorReply; }
    return decoded, Answered;
  }

  /** An error response is reported as one, any other is handed on. */
  predicate Understood(r: Response, resp: Option<Response>, how: Outcome) {
    if r.error != "" then resp == None && how == ErrorReply else resp == Some(r) && how == Answered
  }

  class PythonRunner {
    const w: World
    var proc: Process?
    var started: bool
    var nextID: int

    ghost predicate Valid()
      reads this, proc
    {
      started ==> proc != null && proc.w == w && proc.Idle()
    }

    constructor (w: World)
      ensures Valid() && this.w == w && !started && fresh(this)
    {
      this.w := w;
      proc, started, nextID := null, false, 0;
    }

    /** Tears the subprocess down so that the next call relaunches. */
    method ResetLocked()
      modifies this`proc, this`started, proc
      ensures !started && proc == null
      ensures old(proc) != null ==> !old(proc).alive && old(proc).pending == old(proc.pending)
    {
      if proc != null { proc.alive := false; }
      proc, started := null, false;
    }

    method StartLocked() returns (ok: bool)
      requires !started
      modifies this`proc, this`started
      ensures ok ==> started && proc != null && fresh(proc) && proc.w == w && proc.Idle()
      ensures !ok ==> !started && proc == old(proc)
    {
      ok := *;
      if ok {
        proc := new Process(w);
        started := true;
      }
    }

    /** One request through the pipe. */
    method Extract(path: string, source: string) returns (resp: Option<Response>, how: Outcome)
      requires Valid() && Framed(w)
      modifies this, proc
      ensures Valid() && (proc == old(proc) || proc == null || fresh(proc))
      ensures how != NotStarted ==> nextID == old(nextID) + 1
      ensures started <==> how in {Unencodable, ErrorReply, Answered}
      ensures resp.Some? <==> how == Answered
      ensures Faithful(w) && how in {ErrorReply, Answered} ==> w.extractOne(path, source).Extracted?
      ensures Faithful(w) && how == ErrorReply ==> w.extractOne(path, source).error != ""
      ensures Faithful(w) && how == Answered ==>
                w.extractOne(path, source).error == ""
                    && resp.value == Response(nextID, "", w.extractOne(path, source).body)
      ensures Faithful(w) ==> how !in {BlankLine, Garbled}
    {
      resp := None;
      if !started {
        var ok := StartLocked();
        if !ok { return None, NotStarted; }
      }
      nextID := nextID + 1;
      var request := Request(nextID, path, source);
      var encoded := w.encodeRequest(request);
      if encoded.None? { return None, Unencodable; }
      TrimOneLine(encoded.value);
      resp, how := Exchange(encoded.value);
      if Faithful(w) { assert w.decodeRequest(Trim(encoded.value)) == Some(request); }
    }

    /** Writes one request line and reads the next response line; every failure of either tears the process down. */
    method Exchange(line: string) returns (resp: Option<Response>, how: Outcome)
      requires Valid() && started && Framed(w) && OneLine(line) && Trim(line) == line
      modifies this`proc, this`started, proc
      ensures Valid() && (proc == old(proc) || proc == null)
      ensures how in {WriteFailed, NoLine, BlankLine, Garbled, ErrorReply, Answered}
      ensures started <==> how in {ErrorReply, Answered}
      ensures resp.Some? <==> how == Answered
      ensures old(proc) != null && (how == NoLine ==> '\n' !in old(proc).pending)
      ensures how !in {WriteFailed, NoLine} ==>
                && Serve(w, line).Reply?
                && (Faithful(w) ==> Understood(Serve(w, line).resp, resp, how))
    {
      resp := None;
      proc.Run(line);
      var written: bool := *;
      if !written {
        var n: nat :| n <= |line|;
        proc.inbox := proc.inbox + line[..n];
        ResetLocked();
        return None, WriteFailed;
      }
      proc.inbox := proc.inbox + line + "\n";
      proc.Run(line);

      // The read returns at a newline, or at EOF once the process has ended or the deadline has killed it.
      var n := NewlineAt(proc.pending);
      if n == |proc.pending| {
        assert '\n' !in proc.pending;
        ResetLocked();
        return None, NoLine;
      }
      var got := proc.pending[..n];
      WholeReply(proc, line);
      proc.pending := proc.pending[n + 1..];
      resp, how := Understand(w, Trim(got));
      assert got == w.encodeResponse(Serve(w, line).resp);
      if how in {BlankLine, Garbled} { ResetLocked(); }
    }

    /** Any sequence of calls with the subprocess left to itself, or killed, in between. */
    method Session(calls: seq<(string, string)>) returns (results: seq<Option<Response>>)
      requires Valid() && Framed(w)
      modifies this, proc
      ensures Valid() && |results| == |calls|
      ensures forall i | 0 <= i < |calls| && results[i].Some? && Faithful(w) ::
                w.extractOne(calls[i].0, calls[i].1) == Extracted("", results[i].value.body)
    {
      results := [];
      for i := 0 to |calls|
        invariant Valid() && |results| == i && (proc == old(proc) || proc == null || fresh(proc))
        invariant forall j | 0 <= j < i && results[j].Some? && Faithful(w) ::
                    w.extractOne(calls[j].0, calls[j].1) == Extracted("", results[j].value.body)
      {
        if proc != null { proc.Run("-"); }
        var resp, _ := Extract(calls[i].0, calls[i].1);
        results := results + [resp];
      }
    }
  }

  lemma TrimOneLine(s: string)
    requires OneLine(s)
    ensures Trim(s) == s
  {
  }

  /** Once a newline can be read, the unread bytes are the whole response to the request under way. */
  lemma WholeReply(p: Process, line: string)
    requires Framed(p.w) && p.Serving(line) && NewlineAt(p.pending) < |p.pending|
    ensures Serve(p.w, line).Reply?
    ensures var full := p.w.encodeResponse(Serve(p.w, line).resp);
            p.pending == full + "\n" && p.todo == "" && p.inbox == "" && NewlineAt(p.pending) == |full|
    ensures Faithful(p.w) ==> var full := p.w.encodeResponse(Serve(p.w, line).resp); Trim(full) == full
  {
    var full := p.w.encodeResponse(Serve(p.w, line).resp);
    var n := NewlineAt(p.pending);
    assert (p.pending + p.todo)[n] == '\n';
    NewlineSplit(full, "");
    assert (full + "\n")[n] == '\n';
    assert full + "\n" + "" == full + "\n";
    if Faithful(p.w) { TrimOneLine(full); }
  }

  predicate White(s: string) {
    forall i | 0 <= i < |s| :: s[i] == ' ' || s[i] == '\t' || s[i] == '\n' || s[i] == '\r'
  }

  lemma WhiteMore(c: char, s: string)
    requires IsSpace(c) && White(s)
    ensures White([c] + s) && White(s + [c])
  {
  }

  lemma TrimStep(s: string)
    requires s != ""
    ensures IsSpace(s[0]) ==> Trim(s) == Trim(s[1..])
    ensures !IsSpace(s[0]) && IsSpace(s[|s| - 1]) ==> Trim(s) == Trim(s[..|s| - 1])
    ensures !IsSpace(s[0]) && !IsSpace(s[|s| - 1]) ==> Trim(s) == s
  {
    hide IsSpace;
  }

  lemma TrimNothing()
    ensures Trim("") == ""
  {
  }

  /** Trimming takes off all white space at both ends and nothing else. */
  lemma {:induction false} TrimIff(s: string) returns (lead: string, tail: string)
    ensures s == lead + Trim(s) + tail && White(lead) && White(tail)
    ensures Trim(s) != "" ==>
              var t := Trim(s);
              t[0] !in [' ', '\t', '\n', '\r'] && t[|t| - 1] !in [' ', '\t', '\n', '\r']
    decreases |s|
  {
    lead, tail := "", "";
    hide Trim;
    if s == "" {
      TrimNothing();
    } else {
      TrimStep(s);
      if IsSpace(s[0]) {
        hide IsSpace, White;
        lead, tail := TrimIff(s[1..]);
        WhiteMore(s[0], lead);
        assert s == [s[0]] + s[1..];
        lead := [s[0]] + lead;
      } else if IsSpace(s[|s| - 1]) {
        hide IsSpace, White;
        lead, tail := TrimIff(s[..|s| - 1]);
        WhiteMore(s[|s| - 1], tail);
        assert s == s[..|s| - 1] + [s[|s| - 1]];
        tail := tail + [s[|s| - 1]];
      }
    }
  }

  /** A blank line is passed over, one that is no request is answered with an error, a request with its own id. */
  lemma ServedIff(w: World, line: string)
    ensures Serve(w, line) == Silent <==> White(line)
    ensures Serve(w, line) != Silent && w.decodeRequest(Trim(line)) == None ==>
              Serve(w, line) == Reply(Response(-1, "bad request JSON", ""))
    ensures forall req | Serve(w, line) != Silent && w.decodeRequest(Trim(line)) == Some(req) ::
              match w.extractOne(req.path, req.content)
              case Uncaught => Serve(w, line) == Died
              case Extracted(error, body) => Serve(w, line) == Reply(Response(req.id, error, body))
  {
    var lead, tail := TrimIff(line);
    hide Trim;
    if Trim(line) == "" {
      assert line == lead + tail && White(line);
    } else {
      assert line[|lead|] == Trim(line)[0];
    }
  }
}

/**
 * Dotted TOML keys: splitting them into segments, which may be bare, single-quoted or double-quoted with escapes,
 * and writing segments so that splitting gives them back.
 */
module TomlKeys {
  import opened Text

  function SkipBlanks(s: string): (r: string)
    ensures |r| <= |s| && (r != "" ==> !Margin(r[0]))
  {
    if s != "" && Margin(s[0]) then SkipBlanks(s[1..]) else s
  }

  /** A segment and the text after it. */
  datatype Cut = Cut(segment: string, rest: string)

  function Prepend(c: char, cut: Cut): Cut {
    Cut([c] + cut.segment, cut.rest)
  }

  /** After an opening `"`; a backslash quotes the next byte. */
  function Basic(s: string): (cut: Cut)
    ensures |cut.rest| <= |s|
  {
    if s == "" then Cut("", "")
    else if s[0] == '"' then Cut("", s[1..])
    else if s[0] == '\\' && |s| > 1 then Prepend(s[1], Basic(s[2..]))
    else Prepend(s[0], Basic(s[1..]))
  }

  /** After an opening `'`. */
  function Literal(s: string): (cut: Cut)
    ensures |cut.rest| <= |s|
  {
    if s == "" then Cut("", "")
    else if s[0] == '\'' then Cut("", s[1..])
    else Prepend(s[0], Literal(s[1..]))
  }

  predicate EndsBare(c: char) { c == '.' || Margin(c) }

  function Bare(s: string): (cut: Cut)
    ensures |cut.rest| <= |s|
    ensures s != "" && !EndsBare(s[0]) ==> |cut.rest| < |s|
    ensures s != "" && EndsBare(s[0]) ==> cut.rest == s
  {
    if s == "" || EndsBare(s[0]) then Cut("", s) else Prepend(s[0], Bare(s[1..]))
  }

  function Segment(s: string): (cut: Cut)
    requires s != "" && !Margin(s[0])
    ensures |cut.rest| <= |s| && (cut.rest == s ==> s[0] == '.')
    ensures cut.rest != s ==> |cut.rest| < |s|
  {
    if s[0] == '"' then Basic(s[1..]) else if s[0] == '\'' then Literal(s[1..]) else Bare(s)
  }

  function DropDot(s: string): (r: string)
    ensures |r| <= |s|
  {
    if s != "" && s[0] == '.' then s[1..] else s
  }

  function NonEmpty(segment: string): seq<string> {
    if segment == "" then [] else [segment]
  }

  /** The segments of a dotted key. */
  function Split(s: string): seq<string>
    decreases |s|
  {
    var t := SkipBlanks(s);
    if t == "" then []
    else
      var cut := Segment(t);
      NonEmpty(cut.segment) + Split(DropDot(SkipBlanks(cut.rest)))
  }

  method SkipBlanksFrom(s: string, i0: nat) returns (i: nat)
    requires i0 <= |s|
    ensures i0 <= i <= |s| && s[i..] == SkipBlanks(s[i0..])
  {
    i := i0;
    while i < |s| && Margin(s[i])
      invariant i0 <= i <= |s| && SkipBlanks(s[i..]) == SkipBlanks(s[i0..])
    {
      assert s[i..][1..] == s[i + 1..];
      i := i + 1;
    }
  }

  function Onto(seg: string, cut: Cut): Cut {
    Cut(seg + cut.segment, cut.rest)
  }

  lemma OntoNothing(cut: Cut)
    ensures Onto("", cut) == cut
  {
  }

  method BasicFrom(s: string, i0: nat) returns (seg: string, i: nat)
    requires i0 <= |s|
    ensures i0 <= i <= |s| && Cut(seg, s[i..]) == Basic(s[i0..])
  {
    hide Basic, Onto;
    seg, i := "", i0;
    OntoNothing(Basic(s[i0..]));
    while i < |s| && s[i] != '"'
      invariant i0 <= i <= |s| && Onto(seg, Basic(s[i..])) == Basic(s[i0..])
    {
      BasicStep(s, i, seg);
      if s[i] == '\\' && i + 1 < |s| {
        seg, i := seg + [s[i + 1]], i + 2;
      } else {
        seg, i := seg + [s[i]], i + 1;
      }
    }
    BasicStep(s, i, seg);
    if i < |s| { i := i + 1; }
  }

  /** The end, the closing quote, a backslash with the byte it quotes, or one byte. */
  lemma BasicStep(s: string, i: nat, seg: string)
    requires i <= |s|
    ensures Onto(seg, Basic(s[i..])) ==
            if i == |s| then Cut(seg, s[i..])
            else if s[i] == '"' then Cut(seg, s[i + 1..])
            else if s[i] == '\\' && i + 1 < |s| then Onto(seg + [s[i + 1]], Basic(s[i + 2..]))
            else Onto(seg + [s[i]], Basic(s[i + 1..]))
  {
    assert i < |s| ==> s[i..][1..] == s[i + 1..];
    assert i + 1 < |s| ==> s[i..][2..] == s[i + 2..];
  }

  method LiteralFrom(s: string, i0: nat) returns (seg: string, i: nat)
    requires i0 <= |s|
    ensures i0 <= i <= |s| && Cut(seg, s[i..]) == Literal(s[i0..])
  {
    hide Literal, Onto;
    seg, i := "", i0;
    OntoNothing(Literal(s[i0..]));
    while i < |s| && s[i] != '\''
      invariant i0 <= i <= |s| && Onto(seg, Literal(s[i..])) == Literal(s[i0..])
    {
      LiteralStep(s, i, seg);
      seg, i := seg + [s[i]], i + 1;
    }
    LiteralStep(s, i, seg);
    if i < |s| { i := i + 1; }
  }

  lemma LiteralStep(s: string, i: nat, seg: string)
    requires i <= |s|
    ensures Onto(seg, Literal(s[i..])) ==
            if i == |s| then Cut(seg, s[i..])
            else if s[i] == '\'' then Cut(seg, s[i + 1..])
            else Onto(seg + [s[i]], Literal(s[i + 1..]))
  {
    assert i < |s| ==> s[i..][1..] == s[i + 1..];
  }

  method BareFrom(s: string, i0: nat) returns (seg: string, i: nat)
    requires i0 <= |s|
    ensures i0 <= i <= |s| && Cut(seg, s[i..]) == Bare(s[i0..])
  {
    hide Bare, Onto;
    seg, i := "", i0;
    OntoNothing(Bare(s[i0..]));
    while i < |s| && s[i] != '.' && s[i] != ' ' && s[i] != '\t'
      invariant i0 <= i <= |s| && Onto(seg, Bare(s[i..])) == Bare(s[i0..])
    {
      BareStep(s, i, seg);
      seg, i := seg + [s[i]], i + 1;
    }
    BareStep(s, i, seg);
  }

  lemma BareStep(s: string, i: nat, seg: string)
    requires i <= |s|
    ensures Onto(seg, Bare(s[i..])) == if i == |s| || EndsBare(s[i]) then Cut(seg, s[i..])
            else Onto(seg + [s[i]], Bare(s[i + 1..]))
  {
    assert i < |s| ==> s[i..][1..] == s[i + 1..];
  }

  method SegmentFrom(s: string, i0: nat) returns (seg: string, i: nat)
    requires i0 < |s| && !Margin(s[i0])
    ensures i0 <= i <= |s| && Cut(seg, s[i..]) == Segment(s[i0..])
  {
    assert s[i0..][1..] == s[i0 + 1..];
    if s[i0] == '"' {
      seg, i := BasicFrom(s, i0 + 1);
    } else if s[i0] == '\'' {
      seg, i := LiteralFrom(s, i0 + 1);
    } else {
      seg, i := BareFrom(s, i0);
    }
  }

  /** One segment with its separator, from a byte that is not blank. */
  method SegmentAndDot(s: string, i0: nat) returns (seg: string, i: nat)
    requires i0 < |s| && !Margin(s[i0])
    ensures i0 < i <= |s| && Split(s[i0..]) == NonEmpty(seg) + Split(s[i..])
  {
    hide Segment;
    assert s[i0..][0] == s[i0];
    seg, i := SegmentFrom(s, i0);
    ghost var cut := Segment(s[i0..]);
    i := SkipBlanksFrom(s, i);
    ghost var mid := s[i..];
    if i < |s| && s[i] == '.' {
      assert mid[1..] == s[i + 1..];
      i := i + 1;
    }
    assert s[i..] == DropDot(SkipBlanks(cut.rest));
    assert SkipBlanks(s[i0..]) == s[i0..];
  }

  method SplitDottedKey(s: string) returns (out: seq<string>)
    ensures out == Split(s)
  {
    hide Split, SkipBlanks, Segment;
    out := [];
    var i := 0;
    assert s[0..] == s && Split("") == [] by { SplitNothing(); }
    while i < |s|
      invariant 0 <= i <= |s| && out + Split(s[i..]) == Split(s)
      decreases |s| - i
    {
      ghost var t := s[i..];
      i := SkipBlanksFrom(s, i);
      SplitSkips(t);
      if i >= |s| {
        assert s[i..] == "";
        return;
      }
      ghost var out0 := out;
      var seg;
      seg, i := SegmentAndDot(s, i);
      if |seg| > 0 { out := out + [seg]; }
      assert out + Split(s[i..]) == out0 + (NonEmpty(seg) + Split(s[i..]));
    }
    assert s[i..] == "";
  }

  lemma SplitNothing()
    ensures Split("") == []
  {
  }

  lemma SplitSkips(t: string)
    ensures Split(t) == Split(SkipBlanks(t))
  {
    SkipTwice(t);
  }

  lemma {:induction false} SkipTwice(t: string)
    ensures SkipBlanks(SkipBlanks(t)) == SkipBlanks(t)
  {
  }

  // ---- Writing keys ----

  datatype Style = BasicStyle | LiteralStyle | BareStyle

  /** One segment as written, with blanks on either side. */
  datatype Part = Part(segment: string, style: Style, lead: string, trail: string)

  predicate AllBlank(s: string) {
    forall c | c in s :: c == ' ' || c == '\t'
  }

  /** The style can express the segment. */
  predicate Writable(p: Part) {
    && AllBlank(p.lead) && AllBlank(p.trail)
    && match p.style
       case BasicStyle => true
       case LiteralStyle => '\'' !in p.segment
       case BareStyle => p.segment != "" && p.segment[0] !in "\"'"
                         && forall c | c in p.segment :: c != '.' && c != ' ' && c != '\t'
  }

  /** A backslash before every quote and backslash. */
  function Escape(s: string): string {
    if s == "" then "" else EscapeByte(s[0]) + Escape(s[1..])
  }

  function Body(p: Part): string {
    match p.style
    case BasicStyle => "\"" + Escape(p.segment) + "\""
    case LiteralStyle => "'" + p.segment + "'"
    case BareStyle => p.segment
  }

  function Write(parts: seq<Part>): string {
    if parts == [] then ""
    else parts[0].lead + Body(parts[0]) + parts[0].trail + if |parts| == 1 then "" else "." + Write(parts[1..])
  }

  /** The segments that are not empty, in order. */
  function Kept(parts: seq<Part>): seq<string> {
    if parts == [] then [] else NonEmpty(parts[0].segment) + Kept(parts[1..])
  }

  /** One byte of a segment as escaped, and as read. */
  function EscapeByte(c: char): string {
    if c == '"' || c == '\\' then ['\\', c] else [c]
  }

  lemma BasicReadsByte(c: char, t: string)
    ensures Basic(EscapeByte(c) + t) == Prepend(c, Basic(t))
  {
    var s := EscapeByte(c) + t;
    assert s[|EscapeByte(c)|..] == t;
  }

  lemma {:induction false} BasicReadsEscape(seg: string, rest: string)
    ensures Basic(Escape(seg) + "\"" + rest) == Cut(seg, rest)
  {
    if seg == "" {
      assert ("" + "\"" + rest)[1..] == rest;
    } else {
      var t := Escape(seg[1..]) + "\"" + rest;
      BasicReadsEscape(seg[1..], rest);
      BasicReadsByte(seg[0], t);
      assert Escape(seg) + "\"" + rest == EscapeByte(seg[0]) + t;
      assert [seg[0]] + seg[1..] == seg;
    }
  }

  lemma {:induction false} LiteralReadsBack(seg: string, rest: string)
    requires '\'' !in seg
    ensures Literal(seg + "'" + rest) == Cut(seg, rest)
  {
    var s := seg + "'" + rest;
    if seg == "" {
      assert s[1..] == rest;
    } else {
      LiteralReadsBack(seg[1..], rest);
      assert s[1..] == seg[1..] + "'" + rest;
      assert [seg[0]] + seg[1..] == seg;
    }
  }

  lemma {:induction false} BareReadsBack(seg: string, rest: string)
    requires forall c | c in seg :: !EndsBare(c)
    requires rest != "" ==> EndsBare(rest[0])
    ensures Bare(seg + rest) == Cut(seg, rest)
  {
    if seg == "" {
      assert seg + rest == rest;
    } else {
      BareReadsBack(seg[1..], rest);
      assert (seg + rest)[1..] == seg[1..] + rest;
      assert [seg[0]] + seg[1..] == seg;
    }
  }

  lemma {:induction false} SkipsBlanks(blanks: string, rest: string)
    requires AllBlank(blanks) && (rest != "" ==> !Margin(rest[0]))
    ensures SkipBlanks(blanks + rest) == rest
  {
    if blanks == "" {
      assert blanks + rest == rest;
    } else {
      assert (blanks + rest)[1..] == blanks[1..] + rest;
      assert blanks[0] in blanks && forall c | c in blanks[1..] :: c in blanks;
      SkipsBlanks(blanks[1..], rest);
    }
  }

  lemma BasicReadsBody(segment: string, rest: string)
    ensures var s := "\"" + Escape(segment) + "\"" + rest; Segment(s) == Cut(segment, rest)
  {
    hide Basic, Escape;
    BasicReadsEscape(segment, rest);
    var s := "\"" + Escape(segment) + "\"" + rest;
    assert s[1..] == Escape(segment) + "\"" + rest;
  }

  lemma LiteralReadsBody(segment: string, rest: string)
    requires '\'' !in segment
    ensures var s := "'" + segment + "'" + rest; Segment(s) == Cut(segment, rest)
  {
    hide Literal;
    LiteralReadsBack(segment, rest);
    var s := "'" + segment + "'" + rest;
    assert s[1..] == segment + "'" + rest;
  }

  lemma BareReadsBody(segment: string, rest: string)
    requires segment != "" && segment[0] !in "\"'" && forall c | c in segment :: !EndsBare(c)
    requires rest != "" ==> EndsBare(rest[0])
    ensures var s := segment + rest; s != "" && !Margin(s[0]) && Segment(s) == Cut(segment, rest)
  {
    hide Bare;
    assert segment[0] in segment && segment[0] != '"' && segment[0] != '\'';
    BareReadsBack(segment, rest);
  }

  lemma SegmentReadsBody(p: Part, rest: string)
    requires Writable(p) && (rest != "" ==> EndsBare(rest[0]))
    ensures var s := Body(p) + rest; s != "" && !Margin(s[0]) && Segment(s) == Cut(p.segment, rest)
  {
    hide Segment, Escape;
    match p.style
    case BasicStyle => BasicReadsBody(p.segment, rest);
    case LiteralStyle => LiteralReadsBody(p.segment, rest);
    case BareStyle => BareReadsBody(p.segment, rest);
  }

  /** However the parts are written, splitting gives the non-empty segments back in order. */
  lemma {:induction false} SplitReadsWrite(parts: seq<Part>)
    requires forall p | p in parts :: Writable(p)
    ensures Split(Write(parts)) == Kept(parts)
  {
    hide Split, Body, Writable, NonEmpty;
    if parts == [] {
      SplitNothing();
    } else {
      var p := parts[0];
      var more := if |parts| == 1 then "" else "." + Write(parts[1..]);
      assert Write(parts) == p.lead + (Body(p) + (p.trail + more));
      SplitPart(p, more);
      if |parts| > 1 {
        assert more[1..] == Write(parts[1..]);
        SplitReadsWrite(parts[1..]);
      } else {
        SplitNothing();
        assert Kept(parts[1..]) == [];
      }
    }
  }

  /** One written part, followed by nothing or a dot. */
  lemma SplitPart(p: Part, more: string)
    requires Writable(p) && (more == "" || more[0] == '.')
    ensures Split(p.lead + (Body(p) + (p.trail + more))) == NonEmpty(p.segment) + Split(DropDot(more))
  {
    hide Split, Segment;
    var rest := p.trail + more;
    var s := Body(p) + rest;
    assert rest != "" ==> EndsBare(rest[0]) by {
      if p.trail != "" { assert p.trail[0] in p.trail && Margin(p.trail[0]) && rest[0] == p.trail[0]; }
    }
    SegmentReadsBody(p, rest);
    SkipsBlanks(p.lead, s);
    SkipsBlanks(p.trail, more);
    SplitStep(p.lead + s, s, p.segment, rest);
  }

  lemma SplitStep(t: string, s: string, segment: string, rest: string)
    requires SkipBlanks(t) == s && s != "" && !Margin(s[0]) && Segment(s) == Cut(segment, rest)
    ensures Split(t) == NonEmpty(segment) + Split(DropDot(SkipBlanks(rest)))
  {
  }

  function Segments(parts: seq<Part>): seq<string> {
    seq(|parts|, i requires 0 <= i < |parts| => parts[i].segment)
  }

  lemma {:induction false} KeptLength(parts: seq<Part>)
    ensures |Kept(parts)| <= |parts|
    ensures |Kept(parts)| == |parts| <==> forall p | p in parts :: p.segment != ""
    ensures (forall p | p in parts :: p.segment != "") ==> Kept(parts) == Segments(parts)
  {
    if parts != [] {
      KeptLength(parts[1..]);
      assert parts == [parts[0]] + parts[1..];
      assert Segments(parts) == [parts[0].segment] + Segments(parts[1..]);
      assert (forall p | p in parts :: p.segment != "")
             <==> parts[0].segment != "" && forall p | p in parts[1..] :: p.segment != "";
    }
  }

  /** The round trip is exact precisely when no segment is empty. */
  lemma RoundTripIff(parts: seq<Part>)
    requires forall p | p in parts :: Writable(p)
    ensures Split(Write(parts)) == Segments(parts) <==> forall p | p in parts :: p.segment != ""
  {
    SplitReadsWrite(parts);
    KeptLength(parts);
  }
}

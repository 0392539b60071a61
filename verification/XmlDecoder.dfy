/** The lenient token decoder in front of the XML token loop, which closes elements on its own. */
module XmlDecoder {
  import opened XmlElements
  import opened XmlReadBack
  import opened XmlTree

  /** A token as read from the source; a self-closing tag is a start and an end at one offset. */
  datatype Raw = RawStart(tag: Tag, after: nat) | RawEnd(tag: Tag, after: nat) | RawOther(after: nat)

  function LowerCase(name: string): string {
    seq(|name|, i requires 0 <= i < |name| => if 'A' <= name[i] <= 'Z' then (name[i] as int + 32) as char else name[i])
  }

  /** Elements on a list of names are closed by whatever comes next but their own end tag. */
  predicate ClosedBy(auto: set<string>, top: Tag, t: Raw) {
    LowerCase(top.local) in auto && !(t.RawEnd? && LowerCase(t.tag.local) == LowerCase(top.local))
  }

  /** The tokens delivered, given the open tags. An end tag closes every open element up to the one it names. */
  function Deliver(auto: set<string>, open: seq<Tag>, raws: seq<Raw>): seq<Token>
    decreases |raws|, |open|
  {
    if raws == [] then []
    else
      var t := raws[0];
      if open != [] && ClosedBy(auto, open[|open| - 1], t) then
        [End(t.after)] + Deliver(auto, open[..|open| - 1], raws)
      else
        match t
        case RawStart(tag, after) => [Start(tag.local, after)] + Deliver(auto, open + [tag], raws[1..])
        case RawOther(after) => [Other(after)] + Deliver(auto, open, raws[1..])
        case RawEnd(tag, after) =>
          if open == [] then []
          else
            var top := open[|open| - 1];
            if top.local != tag.local then [End(after)] + Deliver(auto, open[..|open| - 1], raws)
            else if top.prefix != tag.prefix then []
            else [End(after)] + Deliver(auto, open[..|open| - 1], raws[1..])
  }

  ghost predicate RawOffsets(source: string, pos: nat, raws: seq<Raw>)
    decreases raws
  {
    if raws == [] then pos <= |source|
    else pos <= raws[0].after <= |source| && RawOffsets(source, raws[0].after, raws[1..])
  }

  /** Whatever is closed or dropped, the delivered offsets never go back. */
  lemma {:induction false} DeliverOffsets(auto: set<string>, open: seq<Tag>, source: string, pos: nat, raws: seq<Raw>)
    requires RawOffsets(source, pos, raws)
    ensures Offsets(source, pos, Deliver(auto, open, raws))
    decreases |raws|, |open|
  {
    if raws == [] {
    } else {
      var t := raws[0];
      if open != [] { DeliverOffsets(auto, open[..|open| - 1], source, t.after, [t] + raws[1..]); }
      assert [t] + raws[1..] == raws;
      DeliverOffsets(auto, open, source, t.after, raws[1..]);
      if open != [] { DeliverOffsets(auto, open[..|open| - 1], source, t.after, raws[1..]); }
      if t.RawStart? { DeliverOffsets(auto, open + [t.tag], source, t.after, raws[1..]); }
    }
  }

  // ---- Well-formed documents ----

  function RawFlatten(ps: seq<Piece>): seq<Raw> {
    if ps == [] then []
    else
      match ps[0]
      case Text(after) => [RawOther(after)] + RawFlatten(ps[1..])
      case Elem(tag, open, body, close) =>
        [RawStart(tag, open)] + RawFlatten(body) + [RawEnd(tag, close)] + RawFlatten(ps[1..])
  }

  /** No element on the list has anything between its tags. */
  predicate NoneClosedEarly(auto: set<string>, ps: seq<Piece>) {
    ps == []
    || ((ps[0].Elem? ==> (LowerCase(ps[0].tag.local) in auto ==> ps[0].body == []) && NoneClosedEarly(auto, ps[0].body))
        && NoneClosedEarly(auto, ps[1..]))
  }

  predicate Quiet(auto: set<string>, open: seq<Tag>) {
    open != [] ==> LowerCase(open[|open| - 1].local) !in auto
  }

  /** A leading piece of text passes through. */
  lemma DeliverText(auto: set<string>, open: seq<Tag>, ps: seq<Piece>, k: seq<Raw>)
    requires Quiet(auto, open) && ps != [] && ps[0].Text?
    ensures Deliver(auto, open, RawFlatten(ps) + k)
            == [Other(ps[0].after)] + Deliver(auto, open, RawFlatten(ps[1..]) + k)
  {
    assert RawFlatten(ps) == [RawOther(ps[0].after)] + RawFlatten(ps[1..]);
    hide Deliver, RawFlatten;
    DeliverOther(auto, open, ps[0].after, RawFlatten(ps[1..]) + k);
    assert RawFlatten(ps) + k == [RawOther(ps[0].after)] + (RawFlatten(ps[1..]) + k);
  }

  /** A leading start tag passes through and is open for its body. */
  lemma DeliverStart(auto: set<string>, open: seq<Tag>, ps: seq<Piece>, k: seq<Raw>)
    requires Quiet(auto, open) && ps != [] && ps[0].Elem?
    ensures var e := ps[0];
            Deliver(auto, open, RawFlatten(ps) + k) ==
            [Start(e.tag.local, e.open)]
            + Deliver(auto, open + [e.tag], RawFlatten(e.body) + ([RawEnd(e.tag, e.close)] + (RawFlatten(ps[1..]) + k)))
  {
    var e := ps[0];
    var rest := RawFlatten(e.body) + ([RawEnd(e.tag, e.close)] + (RawFlatten(ps[1..]) + k));
    assert RawFlatten(ps)
           == [RawStart(e.tag, e.open)] + RawFlatten(e.body) + [RawEnd(e.tag, e.close)] + RawFlatten(ps[1..]);
    hide RawFlatten;
    Regrouped([RawStart(e.tag, e.open)], RawFlatten(e.body), [RawEnd(e.tag, e.close)], RawFlatten(ps[1..]), k);
    DeliverOpening(auto, open, e.tag, e.open, rest);
  }

  lemma Regrouped<T>(a: seq<T>, b: seq<T>, c: seq<T>, d: seq<T>, k: seq<T>)
    ensures a + b + c + d + k == a + (b + (c + (d + k)))
  {
  }

  lemma DeliverOpening(auto: set<string>, open: seq<Tag>, tag: Tag, after: nat, rest: seq<Raw>)
    requires Quiet(auto, open)
    ensures Deliver(auto, open, [RawStart(tag, after)] + rest)
            == [Start(tag.local, after)] + Deliver(auto, open + [tag], rest)
  {
    assert ([RawStart(tag, after)] + rest)[1..] == rest;
  }

  /** An end tag closes the element it belongs to. */
  lemma DeliverEnd(auto: set<string>, open: seq<Tag>, tag: Tag, close: nat, k: seq<Raw>)
    ensures Deliver(auto, open + [tag], [RawEnd(tag, close)] + k) == [End(close)] + Deliver(auto, open, k)
  {
    var raws := [RawEnd(tag, close)] + k;
    assert raws[1..] == k && (open + [tag])[..|open|] == open;
  }

  /** The next token closes an element on the list, unless it is its end tag. */
  lemma DeliverClosing(auto: set<string>, open: seq<Tag>, tag: Tag, raws: seq<Raw>)
    requires raws != [] && LowerCase(tag.local) in auto && !raws[0].RawEnd?
    ensures Deliver(auto, open + [tag], raws) == [End(raws[0].after)] + Deliver(auto, open, raws)
  {
    assert (open + [tag])[..|open|] == open;
  }

  lemma {:induction false} DeliverDocument(auto: set<string>, open: seq<Tag>, ps: seq<Piece>, k: seq<Raw>)
    requires Quiet(auto, open) && NoneClosedEarly(auto, ps)
    ensures Deliver(auto, open, RawFlatten(ps) + k) == Flatten(ps) + Deliver(auto, open, k)
    decreases ps
  {
    hide Deliver, RawFlatten;
    if ps == [] {
      NothingWritten(k);
    } else if ps[0].Text? {
      DeliverText(auto, open, ps, k);
      DeliverDocument(auto, open, ps[1..], k);
    } else {
      DeliverElement(auto, open, ps, k);
      DeliverDocument(auto, open, ps[1..], k);
      FlattenElem(ps);
      hide Flatten, NoneClosedEarly;
      Assoc([Start(ps[0].tag.local, ps[0].open)] + Flatten(ps[0].body) + [End(ps[0].close)], Flatten(ps[1..]),
          Deliver(auto, open, k));
    }
  }

  lemma NothingWritten(k: seq<Raw>)
    ensures RawFlatten([]) + k == k
  {
  }

  lemma Assoc(a: seq<Token>, b: seq<Token>, c: seq<Token>)
    ensures (a + b) + c == a + (b + c)
  {
  }

  lemma FlattenElem(ps: seq<Piece>)
    requires ps != [] && ps[0].Elem?
    ensures Flatten(ps) == [Start(ps[0].tag.local, ps[0].open)] + Flatten(ps[0].body) + [End(ps[0].close)]
            + Flatten(ps[1..])
  {
  }

  /** A leading element without elements closed early passes through whole. */
  lemma {:induction false} DeliverElement(auto: set<string>, open: seq<Tag>, ps: seq<Piece>, k: seq<Raw>)
    requires Quiet(auto, open) && ps != [] && ps[0].Elem? && NoneClosedEarly(auto, ps[0].body)
    requires LowerCase(ps[0].tag.local) in auto ==> ps[0].body == []
    ensures var e := ps[0];
            Deliver(auto, open, RawFlatten(ps) + k) ==
            [Start(e.tag.local, e.open)] + Flatten(e.body) + [End(e.close)]
                + Deliver(auto, open, RawFlatten(ps[1..]) + k)
    decreases ps, 0
  {
    hide Deliver, NoneClosedEarly;
    var e := ps[0];
    var rest := RawFlatten(ps[1..]) + k;
    DeliverStart(auto, open, ps, k);
    DeliverEnd(auto, open, e.tag, e.close, rest);
    if e.body == [] {
      assert RawFlatten(e.body) + ([RawEnd(e.tag, e.close)] + rest) == [RawEnd(e.tag, e.close)] + rest;
    } else {
      DeliverDocument(auto, open + [e.tag], e.body, [RawEnd(e.tag, e.close)] + rest);
    }
  }

  /** With an element closed early the delivered stream departs from the document's own. */
  lemma {:induction false} DeliverDeparts(auto: set<string>, open: seq<Tag>, ps: seq<Piece>, k: seq<Raw>)
    requires Quiet(auto, open) && !NoneClosedEarly(auto, ps)
    ensures !(Flatten(ps) <= Deliver(auto, open, RawFlatten(ps) + k))
    decreases ps
  {
    hide Deliver, RawFlatten;
    var e := ps[0];
    if e.Text? {
      DeliverText(auto, open, ps, k);
      DeliverDeparts(auto, open, ps[1..], k);
      PrefixTail([Other(e.after)], Flatten(ps[1..]), Deliver(auto, open, RawFlatten(ps[1..]) + k));
    } else {
      FlattenElem(ps);
      hide Flatten;
      var head, last, rest := [Start(e.tag.local, e.open)], [End(e.close)], Flatten(ps[1..]);
      if LowerCase(e.tag.local) in auto && e.body != [] {
        DepartsAtOnce(auto, open, ps, k);
      } else if !NoneClosedEarly(auto, e.body) {
        var tail := [RawEnd(e.tag, e.close)] + (RawFlatten(ps[1..]) + k);
        DeliverStart(auto, open, ps, k);
        DeliverDeparts(auto, open + [e.tag], e.body, tail);
        DepartsInside(head, Flatten(e.body), last + rest, Deliver(auto, open + [e.tag], RawFlatten(e.body) + tail));
        Regrouped(head, Flatten(e.body), last, rest, []);
        assert Flatten(ps) == Flatten(ps) + [] && rest + [] == rest;
      } else {
        DeliverElement(auto, open, ps, k);
        DeliverDeparts(auto, open, ps[1..], k);
        PrefixTail(head + Flatten(e.body) + last, rest, Deliver(auto, open, RawFlatten(ps[1..]) + k));
      }
    }
  }

  /** An element on the list with a body is closed at the first token of the body. */
  lemma DepartsAtOnce(auto: set<string>, open: seq<Tag>, ps: seq<Piece>, k: seq<Raw>)
    requires Quiet(auto, open) && ps != [] && ps[0].Elem? && LowerCase(ps[0].tag.local) in auto && ps[0].body != []
    ensures !(Flatten(ps) <= Deliver(auto, open, RawFlatten(ps) + k))
  {
    var e := ps[0];
    var tail := [RawEnd(e.tag, e.close)] + (RawFlatten(ps[1..]) + k);
    var body := RawFlatten(e.body);
    FlattenElem(ps);
    FirstOfBody(e.body);
    hide Deliver, RawFlatten, Flatten;
    DeliverStart(auto, open, ps, k);
    assert (body + tail)[0] == body[0];
    DeliverClosing(auto, open, e.tag, body + tail);
    var d := Deliver(auto, open, RawFlatten(ps) + k);
    assert d[1].End?;
    assert Flatten(ps)[1] == Flatten(e.body)[0];
  }

  lemma FirstOfBody(ps: seq<Piece>)
    requires ps != []
    ensures RawFlatten(ps) != [] && !RawFlatten(ps)[0].RawEnd? && Flatten(ps) != [] && !Flatten(ps)[0].End?
  {
  }

  lemma DepartsInside(head: seq<Token>, body: seq<Token>, more: seq<Token>, d: seq<Token>)
    requires !(body <= d)
    ensures !(head + (body + more) <= head + d)
  {
    PrefixTail(head, body + more, d);
  }

  lemma PrefixTail(a: seq<Token>, b: seq<Token>, c: seq<Token>)
    ensures a + b <= a + c <==> b <= c
  {
    if a + b <= a + c { assert (a + c)[|a|..|a| + |b|] == b; }
  }

  /** The decoder delivers a well-formed document as written exactly if no element on the list has a body. */
  lemma DeliveredAsWrittenIff(auto: set<string>, ps: seq<Piece>)
    ensures Deliver(auto, [], RawFlatten(ps)) == Flatten(ps) <==> NoneClosedEarly(auto, ps)
  {
    assert RawFlatten(ps) + [] == RawFlatten(ps);
    if NoneClosedEarly(auto, ps) {
      DeliverDocument(auto, [], ps, []);
    } else {
      DeliverDeparts(auto, [], ps, []);
    }
  }

  /** Such a document is read back from its source: names, ranges and child order. */
  lemma WrittenIsReadBack(auto: set<string>, source: string, ps: seq<Piece>) returns (cs: seq<nat>)
    requires RawOffsets(source, 0, RawFlatten(ps)) && NoneClosedEarly(auto, ps)
    ensures var ts := Deliver(auto, [], RawFlatten(ps));
            && Offsets(source, 0, ts) && DenoteAll(source, Result(source, ts), cs, ps, 0)
            && (cs != [] ==> cs[0] == 0)
  {
    hide Deliver, NoneClosedEarly;
    DeliveredAsWrittenIff(auto, ps);
    DeliverOffsets(auto, [], source, 0, RawFlatten(ps));
    cs := ReadBack(source, ps);
  }

  /** An end tag that matches no open element closes them all, and nothing after it is read. */
  lemma {:induction false} StrayEndClosesAll(auto: set<string>, open: seq<Tag>, tag: Tag, after: nat, k: seq<Raw>)
    requires forall o | o in open :: o.local != tag.local
    ensures Deliver(auto, open, [RawEnd(tag, after)] + k) == seq(|open|, _ => End(after))
  {
    var raws := [RawEnd(tag, after)] + k;
    if open != [] {
      var outer, top := open[..|open| - 1], open[|open| - 1];
      assert top in open;
      StrayEndClosesAll(auto, outer, tag, after, k);
      assert seq(|open|, _ => End(after)) == [End(after)] + seq(|outer|, _ => End(after));
    }
  }

  /**
   * `<r><br><a/></r>`: the start tag of `a` finds `br` open, which it closes, and `a` gets the empty range [11, 11).
   */
  lemma EmptyRange(auto: set<string>, source: string)
    requires LowerCase("br") in auto && LowerCase("r") !in auto && LowerCase("a") !in auto && |source| == 15
    ensures var r, br, a := Tag("", "r"), Tag("", "br"), Tag("", "a");
            var raws := [RawStart(r, 3), RawStart(br, 7), RawStart(a, 11), RawEnd(a, 11), RawEnd(r, 15)];
            var ts := [Start("r", 3), Start("br", 7), End(11), Start("a", 11), End(11), End(15)];
            Deliver(auto, [], raws) == ts && Offsets(source, 0, ts) && !NonEmptyFrom(Result(source, ts), 0)
  {
    var r, br, a := Tag("", "r"), Tag("", "br"), Tag("", "a");
    var inside := [RawStart(a, 11), RawEnd(a, 11), RawEnd(r, 15)];
    EmptyRangeDelivered(auto, r, br, a);
    assert [RawStart(r, 3), RawStart(br, 7), RawStart(a, 11), RawEnd(a, 11), RawEnd(r, 15)]
        == [RawStart(r, 3), RawStart(br, 7)] + inside;
    hide Deliver, LowerCase;
    var ts := [Start("r", 3), Start("br", 7), End(11), Start("a", 11), End(11), End(15)];
    NoRoom(source, ts);
    NonEmptyIff(source, ts);
  }

  lemma EmptyRangeDelivered(auto: set<string>, r: Tag, br: Tag, a: Tag)
    requires LowerCase(br.local) in auto && LowerCase(r.local) !in auto && LowerCase(a.local) !in auto
    ensures Deliver(auto, [], [RawStart(r, 3), RawStart(br, 7)] + [RawStart(a, 11), RawEnd(a, 11), RawEnd(r, 15)]) ==
            [Start(r.local, 3), Start(br.local, 7), End(11), Start(a.local, 11), End(11), End(15)]
  {
    hide Deliver, LowerCase;
    var last := [RawEnd(a, 11)] + ([RawEnd(r, 15)] + []);
    var inside := [RawStart(a, 11)] + last;
    DeliverOpening(auto, [], r, 3, [RawStart(br, 7)] + inside);
    DeliverOpening(auto, [r], br, 7, inside);
    DeliverClosing(auto, [r], br, inside);
    DeliverOpening(auto, [r], a, 11, last);
    DeliverEnd(auto, [r], a, 11, [RawEnd(r, 15)] + []);
    DeliverEnd(auto, [], r, 15, []);
    DeliverNothing(auto);
    assert [] + [r] == [r];
    assert [RawStart(r, 3), RawStart(br, 7)] + [RawStart(a, 11), RawEnd(a, 11), RawEnd(r, 15)]
        == [RawStart(r, 3)] + ([RawStart(br, 7)] + inside);
  }

  lemma DeliverNothing(auto: set<string>)
    ensures Deliver(auto, [], []) == []
  {
  }

  lemma NoRoom(source: string, ts: seq<Token>)
    requires ts == [Start("r", 3), Start("br", 7), End(11), Start("a", 11), End(11), End(15)] && |source| == 15
    ensures Offsets(source, 0, ts) && !AllTakeRoom(source, 0, ts)
  {
    var rest := ts[1..][1..][1..];
    assert Offsets(source, 15, rest[1..][1..][1..]);
    assert Offsets(source, 11, rest[1..][1..]);
    assert Offsets(source, 11, rest[1..]);
    assert Offsets(source, 11, rest);
    assert Offsets(source, 7, ts[1..][1..]);
    assert Offsets(source, 3, ts[1..]);
    assert rest == [Start("a", 11), End(11), End(15)] && rest[1..] == [End(11), End(15)];
    assert EndOffset(source, rest[1..]) == 11;
    assert !TakesRoom(source, 11, rest);
    assert !AllTakeRoom(source, 11, rest);
    assert !AllTakeRoom(source, 7, ts[1..][1..]);
    assert !AllTakeRoom(source, 3, ts[1..]);
  }

  /**
   * `<item><link>u</link><b/></item>`: the text closes `link`, so that `</link>` closes `item`, and `b` is never
   * read.
   */
  lemma LinkEndsItem(auto: set<string>, item: Tag, link: Tag, b: Tag)
    requires LowerCase(link.local) in auto && LowerCase(item.local) !in auto && item.local != link.local
    ensures Deliver(auto, [], [RawStart(item, 6), RawStart(link, 12), RawOther(13), RawEnd(link, 20)]
                              + [RawStart(b, 24), RawEnd(b, 24), RawEnd(item, 31)]) ==
            [Start(item.local, 6), Start(link.local, 12), End(13), Other(13), End(20)]
  {
    hide Deliver, LowerCase;
    var k := [RawStart(b, 24), RawEnd(b, 24), RawEnd(item, 31)];
    var last := [RawEnd(link, 20)] + k;
    var text := [RawOther(13)] + last;
    DeliverOpening(auto, [], item, 6, [RawStart(link, 12)] + text);
    DeliverOpening(auto, [item], link, 12, text);
    DeliverClosing(auto, [item], link, text);
    DeliverOther(auto, [item], 13, last);
    StrayEndClosesAll(auto, [item], link, 20, k);
    assert [] + [item] == [item] && seq(1, _ => End(20)) == [End(20)];
    assert [RawStart(item, 6), RawStart(link, 12), RawOther(13), RawEnd(link, 20)] + k
        == [RawStart(item, 6)] + ([RawStart(link, 12)] + text);
  }

  lemma DeliverOther(auto: set<string>, open: seq<Tag>, after: nat, rest: seq<Raw>)
    requires Quiet(auto, open)
    ensures Deliver(auto, open, [RawOther(after)] + rest) == [Other(after)] + Deliver(auto, open, rest)
  {
    assert ([RawOther(after)] + rest)[1..] == rest;
  }

  /** List names are compared without regard to the case of ASCII letters. */
  lemma LowerCaseIff(a: string, b: string)
    ensures LowerCase(a) == LowerCase(b)
            <==> |a| == |b| && forall i | 0 <= i < |a| ::
                   || a[i] == b[i]
                   || ('A' <= a[i] <= 'Z' && b[i] as int == a[i] as int + 32)
                   || ('A' <= b[i] <= 'Z' && a[i] as int == b[i] as int + 32)
  {
    if LowerCase(a) == LowerCase(b) {
      assert |LowerCase(a)| == |a| && |LowerCase(b)| == |b|;
      forall i | 0 <= i < |a|
        ensures a[i] == b[i] || ('A' <= a[i] <= 'Z' && b[i] as int == a[i] as int + 32)
                || ('A' <= b[i] <= 'Z' && a[i] as int == b[i] as int + 32) {
        assert LowerCase(a)[i] == LowerCase(b)[i];
      }
    }
  }

  /** An end tag with the right local name under another prefix ends the reading. */
  lemma OtherPrefixEnds(auto: set<string>, open: seq<Tag>, tag: Tag, prefix: string, after: nat, k: seq<Raw>)
    requires prefix != tag.prefix
    ensures Deliver(auto, open + [tag], [RawEnd(Tag(prefix, tag.local), after)] + k) == []
  {
  }
}

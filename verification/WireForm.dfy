/**
 * What the byte-based `__eq__` and `__hash__` of src/api/python/erlang.py compare: a normal form that
 * also keeps the frame of an improper list around one empty list.
 */
module WireForm {
  import opened Bytes
  import opened Terms
  import opened Encoder
  import opened Decoder
  import opened NormalForm
  import RoundTrip
  import WireEquality

  function Wire(t: Term): Term
    decreases t, 0
  {
    match t
    case PlainList(ts) => PlainList(WireAll(ts))
    case Tuple(ts) => Tuple(WireAll(ts))
    case Map(ts) => Map(WireAll(ts))
    case ErlangList(ts, improper) => WireList(ts, improper)
    case _ => Norm(t)
  }

  function WireAll(ts: seq<Term>): (ws: seq<Term>)
    ensures |ws| == |ts|
    decreases ts, 0
  {
    if ts == [] then [] else [Wire(ts[0])] + WireAll(ts[1..])
  }

  /** An improper list of several elements that ends in an empty list is a proper one. */
  function WireList(ts: seq<Term>, improper: bool): Term
    decreases ts, 1
  {
    var ws := WireAll(ts);
    if ws == [] || !improper then PlainList(ws) else Unframed(ws)
  }

  function Unframed(ws: seq<Term>): Term
    requires ws != []
  {
    if |ws| > 1 && ws[|ws| - 1] == PlainList([]) then PlainList(ws[..|ws| - 1]) else ErlangList(ws, true)
  }

  // The wire form has the same bytes

  lemma {:induction false} WireAllSplit(ts: seq<Term>, us: seq<Term>)
    ensures WireAll(ts + us) == WireAll(ts) + WireAll(us)
  {
    hide Wire;
    if ts == [] {
      assert ts + us == us;
    } else {
      assert (ts + us)[1..] == ts[1..] + us;
      WireAllSplit(ts[1..], us);
      Associative([Wire(ts[0])], WireAll(ts[1..]), WireAll(us));
    }
  }

  lemma {:induction false} EncodeWire(t: Term, b: bytes)
    requires Encode(t) == Ok(b)
    ensures Encode(Wire(t)) == Ok(b)
    decreases t, 0
  {
    hide Be32, Be16;
    match t
    case PlainList(ts) =>
      if ts != [] {
        EncodeWireAll(ts, EncodeAll(ts).value);
      }
    case Tuple(ts) => EncodeWireAll(ts, EncodeAll(ts).value);
    case Map(ts) => EncodeWireAll(ts, EncodeAll(ts).value);
    case ErlangList(ts, improper) =>
      if ts != [] {
        EncodeWireAll(ts, EncodeAll(ts).value);
        if improper {
          EncodeUnframed(WireAll(ts), EncodeAll(ts).value);
        }
      }
    case _ => EncodeNormLeaf(t, b);
  }

  lemma EncodeNormLeaf(t: Term, b: bytes)
    requires Encode(t) == Ok(b) && !t.PlainList? && !t.Tuple? && !t.Map? && !t.ErlangList?
    ensures Encode(Norm(t)) == Ok(b)
  {
    hide Be32, Be16;
    if t.Str? && |t.chars| > MAX_UINT16 {
      WireEquality.EncodeIntegers(t.chars);
    }
  }

  lemma EncodeUnframed(ws: seq<Term>, body: bytes)
    requires 0 < |ws| <= MAX_UINT32 && EncodeAll(ws) == Ok(body)
    ensures Encode(Unframed(ws)) == Ok([TAG_LIST_EXT] + Be32(|ws| - 1) + body)
  {
    hide Be32, EncodeAll;
    var front, last := ws[..|ws| - 1], ws[|ws| - 1];
    if |ws| > 1 && last == PlainList([]) {
      assert ws == front + [last];
      RoundTrip.EncodeSnoc(front, last);
      Associative([TAG_LIST_EXT] + Be32(|front|), EncodeAll(front).value, [TAG_NIL_EXT]);
    }
  }

  lemma {:induction false} EncodeWireAll(ts: seq<Term>, b: bytes)
    requires EncodeAll(ts) == Ok(b)
    ensures EncodeAll(WireAll(ts)) == Ok(b)
    decreases ts, 0
  {
    hide Encode, Wire;
    if ts != [] {
      EncodeWire(ts[0], Encode(ts[0]).value);
      EncodeWireAll(ts[1..], EncodeAll(ts[1..]).value);
      assert WireAll(ts)[1..] == WireAll(ts[1..]);
    }
  }

  // Equal bytes have equal wire forms

  /** A measure for two terms at once; the integers of a long string count as little as its bytes. */
  function Weight(t: Term): nat
    decreases t, 0
  {
    match t
    case Str(s) => 1 + 2 * |s|
    case PlainList(ts) => 1 + WeightAll(ts)
    case Tuple(ts) => 1 + WeightAll(ts)
    case Map(ts) => 1 + WeightAll(ts)
    case ErlangList(ts, _) => 1 + WeightAll(ts)
    case _ => 1
  }

  function WeightAll(ts: seq<Term>): nat
    decreases ts, 0
  {
    if ts == [] then 0 else 1 + Weight(ts[0]) + WeightAll(ts[1..])
  }

  lemma {:induction false} WeightOfIntegers(s: bytes)
    ensures WeightAll(IntegersOf(s)) == 2 * |s|
  {
    if s != [] {
      WeightOfIntegers(s[1..]);
      assert IntegersOf(s)[1..] == IntegersOf(s[1..]);
    }
  }

  lemma {:induction false} WeightSnoc(ts: seq<Term>, t: Term)
    ensures WeightAll(ts) <= WeightAll(ts + [t])
  {
    if ts != [] {
      assert (ts + [t])[1..] == ts[1..] + [t];
      WeightSnoc(ts[1..], t);
    }
  }

  /** A term that begins two encodings of which one is longer is found by its own length. */
  lemma HeadsAgree(t: Term, x: bytes, u: Term, y: bytes, r: bytes, s: bytes)
    requires WellFormed(t) && WellFormed(u) && Encode(t) == Ok(x) && Encode(u) == Ok(y) && x + r == y + s
    ensures x == y && r == s
  {
    hide Decode, Encode, WellFormed;
    RoundTrip.RoundTripInContext([], t, x, r);
    RoundTrip.RoundTripInContext([], u, y, s);
    assert [] + x + r == x + r && [] + y + s == y + s;
    SplitEqual(x, r, y, s);
  }

  lemma SplitEqual(x: bytes, r: bytes, y: bytes, s: bytes)
    requires x + r == y + s && |x| == |y|
    ensures x == y && r == s
  {
    assert (x + r)[..|x|] == x && (y + s)[..|y|] == y && (x + r)[|x|..] == r && (y + s)[|y|..] == s;
  }

  lemma {:induction false} AllAgree(ts: seq<Term>, x: bytes, us: seq<Term>, y: bytes, r: bytes, s: bytes)
    requires |ts| == |us| && EncodeAll(ts) == Ok(x) && EncodeAll(us) == Ok(y) && x + r == y + s
    requires (forall k :: 0 <= k < |ts| ==> WellFormed(ts[k])) && forall k :: 0 <= k < |us| ==> WellFormed(us[k])
    ensures WireAll(ts) == WireAll(us) && r == s
    decreases WeightAll(ts) + WeightAll(us), 0
  {
    hide Encode, WellFormed, Wire;
    if ts == [] {
      assert x + r == r && y + s == s;
    } else {
      var x0, x1 := Encode(ts[0]).value, EncodeAll(ts[1..]).value;
      var y0, y1 := Encode(us[0]).value, EncodeAll(us[1..]).value;
      Associative(x0, x1, r);
      Associative(y0, y1, s);
      HeadsAgree(ts[0], x0, us[0], y0, x1 + r, y1 + s);
      Agree(ts[0], us[0], x0);
      AllAgree(ts[1..], x1, us[1..], y1, r, s);
    }
  }

  /** What is encoded as a list, and the elements and the kind of that list. */
  predicate Listed(t: Term) {
    t.PlainList? || t.ErlangList? || (t.Str? && (t.chars == [] || |t.chars| > MAX_UINT16))
  }

  function ElementsOf(t: Term): seq<Term>
    requires Listed(t)
  {
    match t
    case PlainList(ts) => ts
    case ErlangList(ts, _) => ts
    case Str(s) => IntegersOf(s)
  }

  predicate IsImproper(t: Term) {
    t.ErlangList? && t.improper
  }

  lemma {:induction false} WireIntegers(s: bytes)
    ensures WireAll(IntegersOf(s)) == IntegersOf(s)
    ensures forall k :: 0 <= k < |s| ==> WellFormed(IntegersOf(s)[k])
  {
    if s != [] {
      WireIntegers(s[1..]);
      assert IntegersOf(s)[1..] == IntegersOf(s[1..]);
    }
  }

  lemma ListView(t: Term)
    requires Listed(t) && WellFormed(t)
    ensures Encode(t) == EncodeList(ElementsOf(t), IsImproper(t))
    ensures Wire(t) == WireList(ElementsOf(t), IsImproper(t))
    ensures forall k :: 0 <= k < |ElementsOf(t)| ==> WellFormed(ElementsOf(t)[k])
    ensures WeightAll(ElementsOf(t)) < Weight(t)
  {
    hide Be32;
    if t.Str? {
      WeightOfIntegers(t.chars);
      WireEquality.EncodeIntegers(t.chars);
      WireIntegers(t.chars);
    }
  }

  /** Every list frame holds its elements and a tail. */
  lemma ListFrame(ts: seq<Term>, improper: bool, b: bytes) returns (count: nat, body: bytes)
    requires ts != [] && EncodeList(ts, improper) == Ok(b)
    ensures count == (if improper then |ts| - 1 else |ts|) && count <= MAX_UINT32
    ensures EncodeAll(ts) == Ok(body)
    ensures b == [TAG_LIST_EXT] + Be32(count) + (body + if improper then [] else [TAG_NIL_EXT])
  {
    hide Be32, EncodeAll;
    count, body := if improper then |ts| - 1 else |ts|, EncodeAll(ts).value;
    assert body + [] == body;
    Associative([TAG_LIST_EXT] + Be32(count), body, [TAG_NIL_EXT]);
  }

  /** Only an empty list is encoded as one. */
  lemma NilOnly(t: Term)
    requires WellFormed(t) && Encode(t) == Ok([TAG_NIL_EXT])
    ensures Wire(t) == PlainList([])
  {
    RoundTrip.RoundTrip(t, [TAG_NIL_EXT]);
    RoundTrip.NilRoundTrip();
    if t.ErlangList? && t.value != [] {
      var _, _ := ListFrame(t.value, t.improper, [TAG_NIL_EXT]);
      assert false;
    }
  }

  lemma {:induction false} ListsAgree(ts: seq<Term>, p: bool, us: seq<Term>, q: bool, b: bytes)
    requires EncodeList(ts, p) == Ok(b) && EncodeList(us, q) == Ok(b)
    requires (forall k :: 0 <= k < |ts| ==> WellFormed(ts[k])) && forall k :: 0 <= k < |us| ==> WellFormed(us[k])
    ensures WireList(ts, p) == WireList(us, q)
    decreases WeightAll(ts) + WeightAll(us), 2
  {
    hide Be32, EncodeAll, WellFormed, WireAll, Unframed;
    if ts == [] || us == [] {
      EmptyListsAgree(ts, p, us, q, b);
    } else {
      var c, x := ListFrame(ts, p, b);
      var d, y := ListFrame(us, q, b);
      CountsAgree(TAG_LIST_EXT, c, x + if p then [] else [TAG_NIL_EXT], d, y + if q then [] else [TAG_NIL_EXT]);
      if p == q {
        AllAgree(ts, x, us, y, if p then [] else [TAG_NIL_EXT], if q then [] else [TAG_NIL_EXT]);
      } else if p {
        MixedAgree(us, y, ts, x);
      } else {
        MixedAgree(ts, x, us, y);
      }
    }
  }

  lemma EmptyListsAgree(ts: seq<Term>, p: bool, us: seq<Term>, q: bool, b: bytes)
    requires EncodeList(ts, p) == Ok(b) && EncodeList(us, q) == Ok(b) && (ts == [] || us == [])
    ensures WireList(ts, p) == WireList(us, q)
  {
    hide Be32, EncodeAll;
    if ts != [] {
      var _, _ := ListFrame(ts, p, b);
      assert false;
    }
    if us != [] {
      var _, _ := ListFrame(us, q, b);
      assert false;
    }
  }

  /** A proper list, and an improper one of one element more that ends in an empty list. */
  lemma {:induction false} MixedAgree(ts: seq<Term>, x: bytes, us: seq<Term>, y: bytes)
    requires ts != [] && |us| == |ts| + 1 && EncodeAll(ts) == Ok(x) && EncodeAll(us) == Ok(y)
    requires x + [TAG_NIL_EXT] == y
    requires (forall k :: 0 <= k < |ts| ==> WellFormed(ts[k])) && forall k :: 0 <= k < |us| ==> WellFormed(us[k])
    ensures WireList(ts, false) == WireList(us, true)
    decreases WeightAll(ts) + WeightAll(us), 1
  {
    hide EncodeAll, WellFormed, Encode;
    var front, last := us[..|ts|], us[|ts|];
    assert us == front + [last];
    WeightSnoc(front, last);
    RoundTrip.EncodeSnoc(front, last);
    AllAgree(ts, x, front, EncodeAll(front).value, [TAG_NIL_EXT], Encode(last).value);
    NilOnly(last);
    WireAllSplit(front, [last]);
    assert WireAll([last]) == [Wire(last)] + [];
    assert WireAll(us) == WireAll(ts) + [PlainList([])];
  }

  /** Well-formed terms with the same bytes have the same wire form. */
  lemma {:induction false} Agree(t: Term, u: Term, b: bytes)
    requires WellFormed(t) && WellFormed(u) && Encode(t) == Ok(b) && Encode(u) == Ok(b)
    ensures Wire(t) == Wire(u)
    decreases Weight(t) + Weight(u), 3
  {
    hide Decode, Encode, Norm, Wire, WellFormed;
    RoundTrip.RoundTrip(t, b);
    RoundTrip.RoundTrip(u, b);
    SameKind(t, u);
    if Listed(t) {
      ListView(t);
      ListView(u);
      ListsAgree(ElementsOf(t), IsImproper(t), ElementsOf(u), IsImproper(u), b);
    } else if t.Tuple? {
      CountedView(t);
      CountedView(u);
      TuplesAgree(Parts(t), Parts(u), b);
    } else if t.Map? {
      CountedView(t);
      CountedView(u);
      MapsAgree(Parts(t), Parts(u), b);
    }
  }

  /** Equal normal forms are of terms of the same kind; without elements they are the wire forms. */
  lemma SameKind(t: Term, u: Term)
    requires Norm(t) == Norm(u)
    ensures Listed(t) == Listed(u) && t.Tuple? == u.Tuple? && t.Map? == u.Map?
    ensures !Listed(t) && !t.Tuple? && !t.Map? ==> Wire(t) == Wire(u)
  {
  }

  /** The elements of a tuple, or the keys and values of a map. */
  function Parts(t: Term): seq<Term>
    requires t.Tuple? || t.Map?
  {
    match t
    case Tuple(ts) => ts
    case Map(ts) => ts
  }

  lemma CountedView(t: Term)
    requires t.Tuple? || t.Map?
    ensures t.Tuple? ==> Encode(t) == EncodeTuple(Parts(t)) && Wire(t) == Tuple(WireAll(Parts(t)))
    ensures t.Map? ==> Encode(t) == EncodeMap(Parts(t)) && Wire(t) == Map(WireAll(Parts(t)))
    ensures WellFormed(t) ==> forall k :: 0 <= k < |Parts(t)| ==> WellFormed(Parts(t)[k])
    ensures Weight(t) == 1 + WeightAll(Parts(t))
  {
  }

  lemma {:induction false} TuplesAgree(ts: seq<Term>, us: seq<Term>, b: bytes)
    requires EncodeTuple(ts) == Ok(b) && EncodeTuple(us) == Ok(b)
    requires (forall k :: 0 <= k < |ts| ==> WellFormed(ts[k])) && forall k :: 0 <= k < |us| ==> WellFormed(us[k])
    ensures WireAll(ts) == WireAll(us)
    decreases WeightAll(ts) + WeightAll(us), 2
  {
    hide Be32, EncodeAll, WellFormed, WireAll;
    var x, y := EncodeAll(ts).value, EncodeAll(us).value;
    assert b[0] == if |ts| <= MAX_UINT8 then TAG_SMALL_TUPLE_EXT else TAG_LARGE_TUPLE_EXT;
    assert b[0] == if |us| <= MAX_UINT8 then TAG_SMALL_TUPLE_EXT else TAG_LARGE_TUPLE_EXT;
    if |ts| <= MAX_UINT8 {
      assert b[1] == |ts| as byte && b[1] == |us| as byte;
      SplitEqual([TAG_SMALL_TUPLE_EXT, |ts| as byte], x, [TAG_SMALL_TUPLE_EXT, |us| as byte], y);
    } else {
      CountsAgree(TAG_LARGE_TUPLE_EXT, |ts|, x, |us|, y);
    }
    AllAgree(ts, x, us, y, [], []);
  }

  lemma CountsAgree(tag: byte, c: nat, x: bytes, d: nat, y: bytes)
    requires c <= MAX_UINT32 && d <= MAX_UINT32 && [tag] + Be32(c) + x == [tag] + Be32(d) + y
    ensures c == d && x == y
  {
    SplitEqual([tag] + Be32(c), x, [tag] + Be32(d), y);
    SplitEqual([tag], Be32(c), [tag], Be32(d));
    Be32Inverse(c, Be32(c));
    Be32Inverse(d, Be32(d));
  }

  lemma {:induction false} MapsAgree(ts: seq<Term>, us: seq<Term>, b: bytes)
    requires EncodeMap(ts) == Ok(b) && EncodeMap(us) == Ok(b)
    requires (forall k :: 0 <= k < |ts| ==> WellFormed(ts[k])) && forall k :: 0 <= k < |us| ==> WellFormed(us[k])
    ensures WireAll(ts) == WireAll(us)
    decreases WeightAll(ts) + WeightAll(us), 2
  {
    hide Be32, EncodeAll, WellFormed, WireAll;
    var x, y := EncodeAll(ts).value, EncodeAll(us).value;
    CountsAgree(TAG_MAP_EXT, |ts| / 2, x, |us| / 2, y);
    AllAgree(ts, x, us, y, [], []);
  }

  /** Two well-formed terms have the same bytes exactly when they have the same wire form. */
  lemma WireEqualityExact(t: Term, b: bytes, u: Term, c: bytes)
    requires WellFormed(t) && WellFormed(u) && Encode(t) == Ok(b) && Encode(u) == Ok(c)
    ensures b == c <==> Wire(t) == Wire(u)
  {
    hide Encode, Wire, WellFormed;
    if b == c {
      Agree(t, u, b);
    }
    EncodeWire(t, b);
    EncodeWire(u, c);
  }

  /** The wire form is finer than the normal form: equal lengths and normal forms, unequal bytes. */
  lemma FinerExample()
    ensures var x, nil := ErlangList([PlainList([])], true), PlainList([]);
            var t, u := Tuple([x, nil]), Tuple([nil, x]);
            Norm(t) == Norm(u) && NilSingletons(t) == NilSingletons(u) && Wire(t) != Wire(u)
  {
    var x, nil := ErlangList([PlainList([])], true), PlainList([]);
    assert WireAll([nil]) == [nil] && NormAll([nil]) == [nil] && NilSingletonsAll([nil]) == 0;
    assert Wire(x) == x && Norm(x) == nil && NilSingletons(x) == 1;
    assert [x, nil][1..] == [nil] && [nil, x][1..] == [x];
    assert NormAll([x]) == [nil] && WireAll([x]) == [x] && NilSingletonsAll([x]) == 1;
    assert WireAll([x, nil])[0] == x && WireAll([nil, x])[0] == nil;
    assert NormAll([x, nil]) == [nil, nil] == NormAll([nil, x]);
  }
}

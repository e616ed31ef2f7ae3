/**
 * The byte-based `__eq__` and `__hash__` of src/api/python/erlang.py compare normal forms, except
 * that an improper list of one empty-list-like element keeps a frame its normal form has lost.
 */
module WireEquality {
  import opened Bytes
  import opened Terms
  import opened Encoder
  import opened Decoder
  import opened NormalForm
  import opened RoundTrip

  lemma {:induction false} IntegersAreNormal(s: bytes)
    ensures NormAll(IntegersOf(s)) == IntegersOf(s)
  {
    if s != [] {
      IntegersAreNormal(s[1..]);
    }
  }

  lemma {:induction false} NormAllTake(ts: seq<Term>, n: nat)
    requires n <= |ts|
    ensures NormAll(ts[..n]) == NormAll(ts)[..n]
  {
    if n > 0 {
      NormAllTake(ts[1..], n - 1);
      assert ts[..n][1..] == ts[1..][..n - 1];
    }
  }

  /** A list of normal elements is rebuilt unchanged by `NormList` when it was improper and stays so. */
  lemma NormalList(ns: seq<Term>, last: Term)
    requires NormAll(ns + [last]) == ns + [last]
    ensures Norm(ListOf(ns, last)) == ListOf(ns, last)
  {
    NormAllTake(ns + [last], |ns|);
    assert (ns + [last])[..|ns|] == ns;
    if last == PlainList([]) {
      assert Norm(PlainList(ns)) == PlainList(NormAll(ns));
    } else {
      assert Norm(ErlangList(ns + [last], true)) == NormList(ns + [last], true);
    }
  }

  lemma {:induction false} NormIdempotent(t: Term)
    ensures Norm(Norm(t)) == Norm(t)
    decreases t, 0
  {
    match t
    case Str(s) => IntegersAreNormal(s);
    case PlainList(ts) => NormAllIdempotent(ts);
    case Tuple(ts) => NormAllIdempotent(ts);
    case Map(ts) => NormAllIdempotent(ts);
    case ErlangList(ts, improper) =>
      NormAllIdempotent(ts);
      if ts != [] && improper {
        var ns := NormAll(ts);
        assert ns == ns[..|ns| - 1] + [ns[|ns| - 1]];
        NormalList(ns[..|ns| - 1], ns[|ns| - 1]);
      }
    case _ =>
  }

  lemma {:induction false} NormAllIdempotent(ts: seq<Term>)
    ensures NormAll(NormAll(ts)) == NormAll(ts)
    decreases ts, 0
  {
    if ts != [] {
      NormIdempotent(ts[0]);
      NormAllIdempotent(ts[1..]);
      assert NormAll(ts)[1..] == NormAll(ts[1..]);
    }
  }

  lemma {:induction false} EncodeIntegers(s: bytes)
    ensures EncodeAll(IntegersOf(s)) == Ok(SmallIntegers(s))
  {
    if s != [] {
      EncodeIntegers(s[1..]);
      assert IntegersOf(s)[1..] == IntegersOf(s[1..]);
    }
  }

  /** c is the encoding of a normal form: b is longer by five bytes for each of the n lost frames. */
  ghost predicate Loses(n: nat, b: bytes, c: Output) {
    c.Ok? && |b| == |c.value| + 5 * n && (n == 0 ==> c.value == b)
  }

  lemma {:induction false} NilSingletonsSplit(ts: seq<Term>, us: seq<Term>)
    ensures NilSingletonsAll(ts + us) == NilSingletonsAll(ts) + NilSingletonsAll(us)
  {
    if ts == [] {
      assert ts + us == us;
    } else {
      assert (ts + us)[1..] == ts[1..] + us;
      NilSingletonsSplit(ts[1..], us);
    }
  }

  /**
   * Encoding the normal form gives the same bytes less five for every improper one-element list
   * whose element normalises to the empty list.
   */
  lemma {:induction false} EncodeNorm(t: Term, b: bytes)
    requires Encode(t) == Ok(b)
    ensures Loses(NilSingletons(t), b, Encode(Norm(t)))
    decreases t, 0
  {
    hide Be32, Be16;
    match t
    case Str(s) =>
      if |s| > MAX_UINT16 {
        EncodeIntegers(s);
      }
    case PlainList(ts) =>
      if ts != [] {
        EncodeNormAll(ts, EncodeAll(ts).value);
      }
    case Tuple(ts) => EncodeNormAll(ts, EncodeAll(ts).value);
    case Map(ts) => EncodeNormAll(ts, EncodeAll(ts).value);
    case AtomTerm(a) =>
    case ErlangList(ts, improper) => EncodeNormList(ts, improper, b);
    case _ =>
  }

  lemma {:induction false} EncodeNormAll(ts: seq<Term>, b: bytes)
    requires EncodeAll(ts) == Ok(b)
    ensures Loses(NilSingletonsAll(ts), b, EncodeAll(NormAll(ts)))
    decreases ts, 0
  {
    if ts != [] {
      EncodeNorm(ts[0], Encode(ts[0]).value);
      EncodeNormAll(ts[1..], EncodeAll(ts[1..]).value);
      assert NormAll(ts)[1..] == NormAll(ts[1..]);
    }
  }

  lemma {:induction false} EncodeNormList(ts: seq<Term>, improper: bool, b: bytes)
    requires EncodeList(ts, improper) == Ok(b)
    ensures Loses(NilSingletons(ErlangList(ts, improper)), b, Encode(NormList(ts, improper)))
    decreases ts, 1
  {
    if ts != [] {
      EncodeNormAll(ts, EncodeAll(ts).value);
      if improper {
        ImproperLoses(ts, b);
      }
    }
  }

  lemma ImproperLoses(ts: seq<Term>, b: bytes)
    requires ts != [] && EncodeList(ts, true) == Ok(b)
    requires Loses(NilSingletonsAll(ts), EncodeAll(ts).value, EncodeAll(NormAll(ts)))
    ensures Loses(NilSingletons(ErlangList(ts, true)), b, Encode(NormList(ts, true)))
  {
    hide Be32, EncodeAll, Encode, EncodeTuple, EncodeMap, NormAll;
    var ns, n := NormAll(ts), NilSingletonsAll(ts);
    NormAllOne(ts);
    var front, last := ns[..|ns| - 1], ns[|ns| - 1];
    assert ns == front + [last];
    var header, body := [TAG_LIST_EXT] + Be32(|front|), EncodeAll(ns).value;
    assert b == header + EncodeAll(ts).value;
    if last == PlainList([]) {
      NilLast(front, body);
    } else {
      ImproperFrame(ns, body);
    }
  }

  lemma NormAllOne(ts: seq<Term>)
    ensures |ts| == 1 ==> NormAll(ts) == [Norm(ts[0])]
  {
  }

  lemma ImproperFrame(ns: seq<Term>, body: bytes)
    requires 0 < |ns| <= MAX_UINT32 && EncodeAll(ns) == Ok(body)
    ensures Encode(ErlangList(ns, true)) == Ok([TAG_LIST_EXT] + Be32(|ns| - 1) + body)
  {
    hide Be32, EncodeAll;
  }

  /** An improper list that ends in an empty list: its bytes without the last element are a proper list. */
  lemma NilLast(front: seq<Term>, body: bytes)
    requires |front| < MAX_UINT32 && EncodeAll(front + [PlainList([])]) == Ok(body)
    ensures front == [] ==> |body| == 1 && Encode(PlainList(front)) == Ok([TAG_NIL_EXT])
    ensures front != [] ==> Encode(PlainList(front)) == Ok([TAG_LIST_EXT] + Be32(|front|) + body)
  {
    assert EncodeAll([]) == Ok([]);
    hide Be32, EncodeAll;
    EncodeSnoc(front, PlainList([]));
    Associative([TAG_LIST_EXT] + Be32(|front|), EncodeAll(front).value, [TAG_NIL_EXT]);
  }

  /** Encoding the normal form changes nothing exactly when no frame is lost. */
  lemma EncodeNormSame(t: Term, b: bytes)
    requires Encode(t) == Ok(b)
    ensures Encode(Norm(t)) == Ok(b) <==> NilSingletons(t) == 0
  {
    EncodeNorm(t, b);
  }

  /** Two terms without a lost frame have the same bytes exactly when they have the same normal form. */
  lemma WireEqualityIsSemantic(t: Term, b: bytes, u: Term, c: bytes)
    requires WellFormed(t) && WellFormed(u) && Encode(t) == Ok(b) && Encode(u) == Ok(c)
    ensures b == c ==> Norm(t) == Norm(u)
    ensures NilSingletons(t) == 0 && NilSingletons(u) == 0 ==> (b == c <==> Norm(t) == Norm(u))
    ensures Norm(t) == Norm(u) ==> |b| - |c| == 5 * (NilSingletons(t) - NilSingletons(u))
  {
    RoundTrip.RoundTrip(t, b);
    RoundTrip.RoundTrip(u, c);
    EncodeNorm(t, b);
    EncodeNorm(u, c);
  }

  /** A normal form has no frame left to lose, so `Norm` is a retraction onto what the wire keeps. */
  lemma NormalFormIsWireFixed(t: Term, b: bytes)
    requires Encode(t) == Ok(b)
    ensures NilSingletons(Norm(t)) == 0
    ensures Encode(Norm(t)).Ok? && |Encode(Norm(t)).value| <= |b|
  {
    EncodeNorm(t, b);
    NormIdempotent(t);
    EncodeNorm(Norm(t), Encode(Norm(t)).value);
  }

  /** The empty list and the improper list around it: unequal bytes, equal after a round trip. */
  lemma LostFrameExample()
    ensures var t := ErlangList([PlainList([])], true);
            && WellFormed(t) && Norm(t) == Norm(PlainList([]))
            && Encode(t).Ok? && Encode(PlainList([])).Ok? && Encode(t) != Encode(PlainList([]))
  {
    var t := ErlangList([PlainList([])], true);
    assert EncodeAll([PlainList([])]) == Ok([TAG_NIL_EXT] + []);
    assert NormAll([PlainList([])]) == [PlainList([])];
    assert |Encode(t).value| == 6;
  }
}

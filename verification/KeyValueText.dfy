/**
 * Key/value text: NUL-terminated keys and values, one after the other, as parsed by
 * src/api/go/cloudi/cloudi.go and scanned by src/api/c/cloudi.cpp.
 */
module KeyValueText {
  import opened Bytes
  import opened ReallocPtrs

  datatype Pair = Pair(key: bytes, value: bytes)

  ghost predicate NulFree(s: bytes) {
    forall k :: 0 <= k < |s| ==> s[k] != 0
  }

  /** The segments, each followed by a NUL. */
  function Terminated(segments: seq<bytes>): bytes {
    if segments == [] then [] else segments[0] + [0] + Terminated(segments[1..])
  }

  /** `bytes.Split(text, []byte{0})`. */
  function Split(text: bytes): (data: seq<bytes>)
    ensures |data| > 0
  {
    if text == [] then [[]]
    else
      var rest := Split(text[1..]);
      if text[0] == 0 then [[]] + rest else [[text[0]] + rest[0]] + rest[1..]
  }

  /** The pairs that the loop `for i := 0; i < len(data)-1; i += 2` visits. */
  function PairUp(data: seq<bytes>): seq<Pair> {
    if |data| < 2 then [] else [Pair(data[0], data[1])] + PairUp(data[2..])
  }

  function Flat(pairs: seq<Pair>): seq<bytes> {
    if pairs == [] then [] else [pairs[0].key, pairs[0].value] + Flat(pairs[1..])
  }

  /** The values of a key, in order of occurrence. */
  function ValuesOf(pairs: seq<Pair>, key: bytes): seq<bytes> {
    if pairs == [] then []
    else if pairs[0].key == key then [pairs[0].value] + ValuesOf(pairs[1..], key)
    else ValuesOf(pairs[1..], key)
  }

  lemma {:induction false} ValuesSnoc(pairs: seq<Pair>, p: Pair, key: bytes)
    ensures ValuesOf(pairs + [p], key)
         == if p.key == key then ValuesOf(pairs, key) + [p.value] else ValuesOf(pairs, key)
  {
    if pairs == [] {
      assert pairs + [p] == [p];
    } else {
      assert (pairs + [p])[1..] == pairs[1..] + [p];
      ValuesSnoc(pairs[1..], p, key);
      var first, rest := [pairs[0].value], ValuesOf(pairs[1..], key);
      assert first + (rest + [p.value]) == first + rest + [p.value];
    }
  }

  /** The result holds, for each key of the pairs and for no other, its values in order. */
  ghost predicate Collects(result: map<bytes, seq<bytes>>, pairs: seq<Pair>) {
    && (forall key :: key in result <==> ValuesOf(pairs, key) != [])
    && (forall key :: key in result ==> result[key] == ValuesOf(pairs, key))
  }

  lemma {:induction false} PairUpTake(data: seq<bytes>, i: nat)
    requires 2 * i + 1 < |data|
    ensures i < |PairUp(data)| && PairUp(data)[i] == Pair(data[2 * i], data[2 * i + 1])
    decreases i
  {
    if i > 0 {
      PairUpTake(data[2..], i - 1);
    }
  }

  lemma {:induction false} PairUpLength(data: seq<bytes>)
    ensures |PairUp(data)| == |data| / 2
  {
    if |data| >= 2 {
      PairUpLength(data[2..]);
    }
  }

  /** `textKeyValueParse`. */
  method TextKeyValueParse(text: bytes) returns (result: map<bytes, seq<bytes>>)
    ensures Collects(result, PairUp(Split(text)))
  {
    hide Split, PairUp;
    result := map[];
    var data := Split(text);
    ghost var pairs := PairUp(data);
    PairUpLength(data);
    var i := 0;
    ghost var done := 0;
    while i < |data| - 1
      invariant i == 2 * done && 0 <= done <= |pairs|
      invariant Collects(result, pairs[..done])
    {
      var key, value := data[i], data[i + 1];
      PairUpTake(data, done);
      CollectsNext(result, pairs, done);
      done := done + 1;
      if key !in result {
        result := result[key := [value]];
      } else {
        result := result[key := result[key] + [value]];
      }
      i := i + 2;
    }
    assert pairs[..done] == pairs;
  }

  lemma CollectsNext(result: map<bytes, seq<bytes>>, pairs: seq<Pair>, i: nat)
    requires i < |pairs| && Collects(result, pairs[..i])
    ensures var (key, value) := (pairs[i].key, pairs[i].value);
            var old' := if key in result then result[key] else [];
            Collects(result[key := old' + [value]], pairs[..i + 1])
  {
    assert pairs[..i + 1] == pairs[..i] + [pairs[i]];
    forall key {
      ValuesSnoc(pairs[..i], pairs[i], key);
    }
  }

  lemma {:induction false} SplitSegment(s: bytes, rest: bytes)
    requires NulFree(s)
    ensures Split(s + [0] + rest) == [s] + Split(rest)
  {
    var text := s + [0] + rest;
    if s == [] {
      assert text[1..] == rest;
    } else {
      assert text[1..] == s[1..] + [0] + rest;
      SplitSegment(s[1..], rest);
      assert [s[0]] + s[1..] == s;
    }
  }

  lemma {:induction false} SplitTerminated(segments: seq<bytes>)
    requires forall k :: 0 <= k < |segments| ==> NulFree(segments[k])
    ensures Split(Terminated(segments)) == segments + [[]]
  {
    if segments != [] {
      SplitTerminated(segments[1..]);
      SplitSegment(segments[0], Terminated(segments[1..]));
    }
  }

  lemma {:induction false} PairUpFlat(pairs: seq<Pair>)
    ensures PairUp(Flat(pairs) + [[]]) == pairs
  {
    if pairs != [] {
      assert (Flat(pairs) + [[]])[2..] == Flat(pairs[1..]) + [[]];
      PairUpFlat(pairs[1..]);
    }
  }

  /** The segments with a NUL between every two of them. */
  function Joined(data: seq<bytes>): bytes
    requires data != []
  {
    if |data| == 1 then data[0] else data[0] + [0] + Joined(data[1..])
  }

  /** Any text is split into the segments between its NULs, also when it does not end with one. */
  lemma {:induction false} SplitJoined(text: bytes)
    ensures Joined(Split(text)) == text
    ensures forall k :: 0 <= k < |Split(text)| ==> NulFree(Split(text)[k])
  {
    if text != [] {
      SplitJoined(text[1..]);
      var rest := Split(text[1..]);
      if text[0] == 0 {
        assert Split(text) == [[]] + rest && ([[]] + rest)[1..] == rest;
        assert Joined([[]] + rest) == [] + [0] + Joined(rest) == text;
      } else {
        var first := [text[0]] + rest[0];
        assert Split(text) == [first] + rest[1..] && ([first] + rest[1..])[1..] == rest[1..];
        JoinedFirst(text[0], rest);
        assert [text[0]] + text[1..] == text;
      }
    }
  }

  lemma JoinedFirst(b: byte, rest: seq<bytes>)
    requires rest != []
    ensures Joined([[b] + rest[0]] + rest[1..]) == [b] + Joined(rest)
  {
    var all := [[b] + rest[0]] + rest[1..];
    assert all[1..] == rest[1..];
    if |rest| > 1 {
      assert [b] + rest[0] + [0] + Joined(rest[1..]) == [b] + (rest[0] + [0] + Joined(rest[1..]));
    }
  }

  /** No other segments without NULs have that text. */
  lemma {:induction false} JoinedSplit(data: seq<bytes>)
    requires data != [] && forall k :: 0 <= k < |data| ==> NulFree(data[k])
    ensures Split(Joined(data)) == data
  {
    if |data| == 1 {
      LastSegment(data[0]);
      assert data == [data[0]];
    } else {
      JoinedSplit(data[1..]);
      SplitSegment(data[0], Joined(data[1..]));
    }
  }

  lemma {:induction false} LastSegment(s: bytes)
    requires NulFree(s)
    ensures Split(s) == [s]
  {
    if s != [] {
      LastSegment(s[1..]);
      assert [s[0]] + s[1..] == s;
    }
  }

  /** Parsing the print of a list of NUL-free pairs visits exactly these pairs. */
  lemma ParseOfPrint(pairs: seq<Pair>)
    requires forall k :: 0 <= k < |pairs| ==> NulFree(pairs[k].key) && NulFree(pairs[k].value)
    ensures PairUp(Split(Terminated(Flat(pairs)))) == pairs
  {
    FlatNulFree(pairs);
    SplitTerminated(Flat(pairs));
    PairUpFlat(pairs);
  }

  lemma {:induction false} FlatNulFree(pairs: seq<Pair>)
    requires forall k :: 0 <= k < |pairs| ==> NulFree(pairs[k].key) && NulFree(pairs[k].value)
    ensures forall k :: 0 <= k < |Flat(pairs)| ==> NulFree(Flat(pairs)[k])
  {
    if pairs != [] {
      FlatNulFree(pairs[1..]);
    }
  }

  // The scan of the C interface

  /** The segment starts that the loop of `text_key_value_parse` records from position t on. */
  function ScanFrom(text: bytes, t: nat): (starts: seq<nat>)
    ensures starts != [] ==> starts[0] > t
    decreases |text| - t
  {
    if t + 1 >= |text| then []
    else if text[t] == 0 then [t + 1] + ScanFrom(text, t + 2)
    else ScanFrom(text, t + 1)
  }

  /**
   * The capacity, in pointers, when i positions have been recorded. It starts at 128; after each
   * record room for two more is asked for, and neither a refusal of the allocator nor one beyond the
   * maximum of 65536 is looked at.
   */
  function Capacity(i: nat, granted: nat -> bool): (capacity: nat)
    ensures capacity >= 128
  {
    if i < 2 then 128
    else
      var before := Capacity(i - 1, granted);
      if i + 1 < before || i + 1 > 65536 || !granted(i) then before else Grown(before, i + 1)
  }

  /** Every position up to n, the place of the null pointer, was inside the capacity when it was written. */
  ghost predicate Fits(n: nat, granted: nat -> bool) {
    forall i :: 1 <= i <= n ==> i < Capacity(i, granted)
  }

  datatype Scanned = Scanned(starts: seq<nat>) | OutOfRange

  /**
   * `text_key_value_parse`: the recorded positions before the final null pointer, or the exception
   * of a write outside the capacity. `granted(i)` is the allocator's answer after the i-th record.
   */
  method Scan(text: bytes, granted: nat -> bool) returns (r: Scanned)
    ensures var starts := [0] + ScanFrom(text, 1);
            if Fits(|starts|, granted) then r == Scanned(starts) else r == OutOfRange
  {
    var result: seq<nat> := [0];
    var size := 128;
    if |text| > 1 {
      var t := 1;
      while t < |text| - 1
        invariant 1 <= t <= |text| + 1 && result != []
        invariant result + ScanFrom(text, t) == [0] + ScanFrom(text, 1)
        invariant size == Capacity(|result|, granted) && Fits(|result| - 1, granted)
      {
        if text[t] == 0 {
          if |result| >= size {
            assert |result| <= |result + ScanFrom(text, t)|;
            return OutOfRange;
          }
          t := t + 1;
          result := result + [t];
          size := Reserved(size, |result| + 1, granted(|result|));
        }
        t := t + 1;
      }
    }
    if |result| >= size {
      return OutOfRange;
    }
    r := Scanned(result);
  }

  /** `reserve` on the array of pointers, whose maximum is 65536. */
  method Reserved(size: nat, n: nat, granted: bool) returns (after: nat)
    requires size > 0
    ensures after == if n < size || n > 65536 || !granted then size else Grown(size, n)
  {
    after := size;
    if n < size || n > 65536 || !granted {
      return;
    }
    while n >= after
      invariant after > 0 && Grown(after, n) == Grown(size, n)
      decreases n - after
    {
      after := 2 * after;
    }
  }

  /** With an allocator that always grants, the capacity is the least doubling that is asked for. */
  lemma {:induction false} CapacityGranted(i: nat, granted: nat -> bool)
    requires i >= 1 && forall k :: granted(k)
    ensures Capacity(i, granted) == Grown(128, if i < 65536 then i + 1 else 65536)
  {
    if i >= 2 {
      CapacityGranted(i - 1, granted);
      if i < 65536 {
        GrownTwice(128, i, i + 1);
      }
    }
  }

  /** Then exactly the texts with fewer than 131072 positions are scanned. */
  lemma GrantedScans(n: nat, granted: nat -> bool)
    requires forall k :: granted(k)
    ensures Fits(n, granted) <==> n < 131072
  {
    LastCapacity();
    forall i | 1 <= i <= n
      ensures i < Capacity(i, granted) <==> i < 131072
    {
      CapacityGranted(i, granted);
    }
    if n >= 131072 {
      assert !(131072 < Capacity(131072, granted));
    }
  }

  lemma LastCapacity()
    ensures Grown(128, 65536) == 131072
  {
    assert Doubled(128, 9) == 65536;
    DoubledStep(128, 9);
    GrownExceedsMaximum(128, 9, 65536);
    GrownIsLeast(128, 65536, 10);
  }

  /** Whatever the allocator answers, exactly the texts with fewer than 128 positions are always scanned. */
  lemma AlwaysScans(n: nat)
    ensures (forall granted: nat -> bool :: Fits(n, granted)) <==> n < 128
  {
    if n >= 128 {
      var refusing := (k: nat) => false;
      Refused(128, refusing);
      assert !Fits(n, refusing);
    }
  }

  lemma {:induction false} Refused(i: nat, granted: nat -> bool)
    requires forall k :: !granted(k)
    ensures Capacity(i, granted) == 128
  {
    if i >= 2 {
      Refused(i - 1, granted);
    }
  }

  /** Where the segments start when the first one starts at `at`. */
  function Starts(segments: seq<bytes>, at: nat): seq<nat> {
    if segments == [] then [] else [at] + Starts(segments[1..], at + |segments[0]| + 1)
  }

  ghost predicate OnlyLastEmpty(segments: seq<bytes>) {
    forall k :: 0 <= k < |segments| - 1 ==> segments[k] != []
  }

  lemma {:induction false} ScanWalks(text: bytes, t: nat, u: nat)
    requires t <= u < |text| && forall k :: t <= k < u ==> text[k] != 0
    ensures ScanFrom(text, t) == ScanFrom(text, u)
    decreases u - t
  {
    if t < u {
      ScanWalks(text, t + 1, u);
    }
  }

  /** Inside a segment the scan records nothing until the NUL that ends it. */
  lemma ScanInside(p: bytes, s: bytes, tail: bytes)
    requires s != [] && NulFree(s)
    ensures var text := p + s + [0] + tail;
            text[|p| + |s|] == 0 && ScanFrom(text, |p| + 1) == ScanFrom(text, |p| + |s|)
  {
    var text := p + s + [0] + tail;
    forall k | |p| + 1 <= k < |p| + |s|
      ensures text[k] != 0
    {
      assert text[k] == s[k - |p|];
    }
    ScanWalks(text, |p| + 1, |p| + |s|);
  }

  /** A segment that is neither empty nor last: its end is recorded and the scan goes on behind it. */
  lemma ScanSegment(p: bytes, s: bytes, tail: bytes)
    requires s != [] && NulFree(s) && tail != []
    ensures var text := p + s + [0] + tail;
            ScanFrom(text, |p| + 1) == [|p| + |s| + 1] + ScanFrom(text, |p| + |s| + 2)
  {
    ScanInside(p, s, tail);
  }

  /** The last segment: the scan finds nothing behind its first byte. */
  lemma ScanLast(p: bytes, s: bytes)
    requires NulFree(s)
    ensures ScanFrom(p + s + [0] + [], |p| + 1) == []
  {
    if s != [] {
      ScanInside(p, s, []);
    }
  }

  /** From behind the first byte of a segment, the scan finds the later segments unless one is empty. */
  lemma {:induction false} ScanSegments(text: bytes, p: bytes, s: bytes, rest: seq<bytes>)
    requires NulFree(s) && forall k :: 0 <= k < |rest| ==> NulFree(rest[k])
    requires text == p + s + [0] + Terminated(rest)
    ensures ScanFrom(text, |p| + 1) == Starts(rest, |p| + |s| + 1) <==> OnlyLastEmpty([s] + rest)
    decreases |rest|
  {
    var at := |p| + |s| + 1;
    if rest == [] {
      ScanLast(p, s);
    } else {
      OnlyLastEmptyCons(s, rest);
      if s == [] {
        assert Starts(rest, at)[0] == at;
      } else {
        assert ScanFrom(text, at + 1) == Starts(rest[1..], at + |rest[0]| + 1) <==> OnlyLastEmpty(rest) by {
          NextSegment(text, p + s + [0], rest);
          ScanSegments(text, p + s + [0], rest[0], rest[1..]);
        }
        assert ScanFrom(text, |p| + 1) == [at] + ScanFrom(text, at + 1) by {
          NextSegment(text, p + s + [0], rest);
          ScanSegment(p, s, Terminated(rest));
        }
        StartsCons(at, rest, ScanFrom(text, at + 1));
      }
    }
  }

  lemma NextSegment(text: bytes, p: bytes, rest: seq<bytes>)
    requires text == p + Terminated(rest) && rest != []
    ensures text == p + rest[0] + [0] + Terminated(rest[1..])
    ensures Terminated(rest) != [] && [rest[0]] + rest[1..] == rest
  {
  }

  lemma ScanFirst(text: bytes, s: bytes, rest: seq<bytes>)
    requires NulFree(s) && forall k :: 0 <= k < |rest| ==> NulFree(rest[k])
    requires text == s + [0] + Terminated(rest)
    ensures ScanFrom(text, 1) == Starts(rest, |s| + 1) <==> OnlyLastEmpty([s] + rest)
  {
    hide ScanFrom, Terminated;
    var p: bytes := [];
    assert p + s == s;
    ScanSegments(text, p, s, rest);
  }

  lemma StartsCons(at: nat, rest: seq<bytes>, found: seq<nat>)
    requires rest != []
    ensures [at] + found == Starts(rest, at) <==> found == Starts(rest[1..], at + |rest[0]| + 1)
  {
    assert ([at] + found)[1..] == found;
    assert Starts(rest, at)[1..] == Starts(rest[1..], at + |rest[0]| + 1);
  }

  lemma OnlyLastEmptyCons(s: bytes, rest: seq<bytes>)
    requires rest != []
    ensures OnlyLastEmpty([s] + rest) <==> s != [] && OnlyLastEmpty(rest)
  {
    var segments := [s] + rest;
    assert forall k :: 0 <= k < |rest| ==> rest[k] == segments[k + 1];
    assert segments[0] == s;
  }

  lemma ScanNonEmpty(text: bytes, s: bytes, rest: seq<bytes>)
    requires NulFree(s) && forall k :: 0 <= k < |rest| ==> NulFree(rest[k])
    requires text == s + [0] + Terminated(rest)
    ensures [0] + ScanFrom(text, 1) == Starts([s] + rest, 0) <==> OnlyLastEmpty([s] + rest)
  {
    hide ScanFrom, Terminated;
    ScanFirst(text, s, rest);
    assert ([s] + rest)[1..] == rest;
    StartsCons(0, [s] + rest, ScanFrom(text, 1));
  }

  /**
   * The scan returns exactly the starts of the segments when there is a segment and none but the
   * last is empty, and only then.
   */
  lemma ScanIsExact(segments: seq<bytes>)
    requires forall k :: 0 <= k < |segments| ==> NulFree(segments[k])
    ensures [0] + ScanFrom(Terminated(segments), 1) == Starts(segments, 0)
       <==> segments != [] && OnlyLastEmpty(segments)
  {
    if segments != [] {
      var s, rest := segments[0], segments[1..];
      assert [s] + rest == segments;
      ScanNonEmpty(Terminated(segments), s, rest);
    }
  }

  /** An empty value in the middle hides the key that follows it. */
  lemma EmptyValueExample()
    ensures var segments: seq<bytes> := [[107], [], [110], [49]];
            && Starts(segments, 0) == [0, 2, 3, 5]
            && [0] + ScanFrom(Terminated(segments), 1) == [0, 2, 5]
  {
    var segments: seq<bytes> := [[107], [], [110], [49]];
    var text: bytes := [107, 0, 0, 110, 0, 49, 0];
    assert Terminated([[49]]) == [49, 0] + [];
    assert Terminated([[110], [49]]) == [110, 0, 49, 0];
    assert Terminated([[], [110], [49]]) == [0, 110, 0, 49, 0];
    assert Terminated(segments) == text;
    assert ScanFrom(text, 4) == [5] + ScanFrom(text, 6) == [5];
    assert ScanFrom(text, 1) == [2] + ScanFrom(text, 3);
    assert Starts([[49]], 5) == [5] && Starts([[110], [49]], 3) == [3, 5];
    assert Starts([[], [110], [49]], 2) == [2, 3, 5];
  }
}

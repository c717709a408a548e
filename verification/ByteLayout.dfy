/** Byte sequences held inside byte arrays, and lists of items laid out one after the other. */
module ByteLayout {

  type Byte = x: int | 0 <= x < 256

  /** `bytes` holds `s` at `offset`. */
  ghost predicate Holds(bytes: seq<Byte>, offset: nat, s: seq<Byte>) {
    offset + |s| <= |bytes| && bytes[offset..offset + |s|] == s
  }

  lemma HoldsAt(bytes: seq<Byte>, offset: nat, s: seq<Byte>, i: nat)
    requires Holds(bytes, offset, s) && i < |s|
    ensures bytes[offset + i] == s[i]
  {
  }

  lemma HoldsConcat(bytes: seq<Byte>, offset: nat, a: seq<Byte>, b: seq<Byte>)
    ensures Holds(bytes, offset, a + b) <==> Holds(bytes, offset, a) && Holds(bytes, offset + |a|, b)
  {
    if offset + |a + b| <= |bytes| {
      var whole := bytes[offset..offset + |a + b|];
      assert whole[..|a|] == bytes[offset..offset + |a|];
      assert whole[|a|..] == bytes[offset + |a|..offset + |a| + |b|];
      assert (a + b)[..|a|] == a && (a + b)[|a|..] == b;
      assert whole == whole[..|a|] + whole[|a|..];
    }
  }

  lemma HoldsPair(bytes: seq<Byte>, offset: nat, d: seq<Byte>, e: seq<Byte>, rest: seq<Byte>)
    ensures Holds(bytes, offset, d + (e + rest)) <==>
      Holds(bytes, offset, d) && Holds(bytes, offset + |d|, e) && Holds(bytes, offset + |d| + |e|, rest)
  {
    HoldsConcat(bytes, offset, d, e + rest);
    HoldsConcat(bytes, offset + |d|, e, rest);
  }

  /** Five fields and a rest, one after the other. */
  lemma HoldsFields(
      bytes: seq<Byte>, offset: nat, a: seq<Byte>, b: seq<Byte>, c: seq<Byte>, d: seq<Byte>, e: seq<Byte>,
      rest: seq<Byte>)
    ensures Holds(bytes, offset, a + (b + (c + (d + (e + rest))))) <==>
      && Holds(bytes, offset, a) && Holds(bytes, offset + |a|, b) && Holds(bytes, offset + |a| + |b|, c)
      && Holds(bytes, offset + |a| + |b| + |c|, d) && Holds(bytes, offset + |a| + |b| + |c| + |d|, e)
      && Holds(bytes, offset + |a| + |b| + |c| + |d| + |e|, rest)
  {
    var de := d + (e + rest);
    HoldsConcat(bytes, offset, a, b + (c + de));
    HoldsConcat(bytes, offset + |a|, b, c + de);
    HoldsConcat(bytes, offset + |a| + |b|, c, de);
    HoldsPair(bytes, offset + |a| + |b| + |c|, d, e, rest);
  }

  /** The encodings of the items, one after the other. */
  function Flatten<T>(enc: T -> seq<Byte>, items: seq<T>): seq<Byte> {
    if items == [] then [] else enc(items[0]) + Flatten(enc, items[1..])
  }

  predicate All<T>(ok: T -> bool, items: seq<T>) {
    items == [] || (ok(items[0]) && All(ok, items[1..]))
  }

  /** The encoding of an acceptable item stands at `offset`, within the limit. */
  ghost predicate ItemAt<T>(bytes: seq<Byte>, limit: nat, ok: T -> bool, enc: T -> seq<Byte>, offset: nat, item: T) {
    ok(item) && Holds(bytes, offset, enc(item)) && offset + |enc(item)| <= limit
  }

  /** A function of the position that does not see single items does not see lists of items. */
  lemma {:induction false} ItemsAreSkipped<T(!new), D(!new)>(
      bytes: seq<Byte>, limit: nat, ok: T -> bool, enc: T -> seq<Byte>, walk: nat -> D, offset: nat, items: seq<T>)
    requires forall o: nat, p: T :: ItemAt(bytes, limit, ok, enc, o, p) ==> walk(o) == walk(o + |enc(p)|)
    requires All(ok, items) && Holds(bytes, offset, Flatten(enc, items)) && offset + |Flatten(enc, items)| <= limit
    ensures walk(offset) == walk(offset + |Flatten(enc, items)|)
    decreases items
  {
    if items != [] {
      var next := offset + |enc(items[0])|;
      HoldsConcat(bytes, offset, enc(items[0]), Flatten(enc, items[1..]));
      assert ItemAt(bytes, limit, ok, enc, offset, items[0]);
      ItemsAreSkipped(bytes, limit, ok, enc, walk, next, items[1..]);
    }
  }

  /** The position after some item that stands at `offset`. */
  ghost predicate StepsOver<T(!new)>(
      bytes: seq<Byte>, limit: nat, ok: T -> bool, enc: T -> seq<Byte>, offset: nat, next: nat)
  {
    exists p :: ItemAt(bytes, limit, ok, enc, offset, p) && next == offset + |enc(p)| && offset < next
  }

  /** From a live position the walk stops or steps over an item to a live position with the same result. */
  ghost predicate Progress<T(!new), D>(
      bytes: seq<Byte>, limit: nat, ok: T -> bool, enc: T -> seq<Byte>, walk: nat -> D, live: nat -> bool,
      stops: nat -> bool, o: nat)
  {
    live(o) ==> stops(o) || exists n: nat :: StepsOver(bytes, limit, ok, enc, o, n) && live(n) && walk(o) == walk(n)
  }

  /**
   A walk that from every live position either stops or steps over an item to a live position with the
   same result has stepped over a list of items when it stops.
   */
  lemma {:induction false} ItemsAreParsed<T(!new), D(!new)>(
      bytes: seq<Byte>, limit: nat, ok: T -> bool, enc: T -> seq<Byte>, walk: nat -> D,
      live: nat -> bool, stops: nat -> bool, offset: nat) returns (items: seq<T>)
    requires live(offset) && offset <= limit <= |bytes|
    requires forall o: nat :: Progress(bytes, limit, ok, enc, walk, live, stops, o)
    ensures All(ok, items) && Holds(bytes, offset, Flatten(enc, items))
    ensures var end := offset + |Flatten(enc, items)|;
      end <= limit && stops(end) && live(end) && walk(offset) == walk(end)
    decreases limit - offset
  {
    assert Progress(bytes, limit, ok, enc, walk, live, stops, offset);
    if stops(offset) {
      items := [];
    } else {
      var next: nat :| StepsOver(bytes, limit, ok, enc, offset, next) && live(next) && walk(offset) == walk(next);
      var p :| ItemAt(bytes, limit, ok, enc, offset, p) && next == offset + |enc(p)| && offset < next;
      var rest := ItemsAreParsed(bytes, limit, ok, enc, walk, live, stops, next);
      items := [p] + rest;
      assert items[1..] == rest;
      HoldsConcat(bytes, offset, enc(p), Flatten(enc, rest));
    }
  }
}

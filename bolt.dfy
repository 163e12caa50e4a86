/**
  * The presence store: one bolt bucket that maps `inbound + ":" + ip` to the
  * time the pair was last seen. There is no expiry index; the scans that
  * answer queries skip, and in two of the three cases delete, the entries
  * that are too old or whose value does not parse.
  *
  * Time is an integer count of nanoseconds since the Unix epoch, passed in
  * where the source calls time.Now().
  */
module Bolt {
  import opened Wrappers
  import opened Text

  const TtlSeconds: int := 120
  const NanosPerSecond: int := 1_000_000_000
  /** ttlSeconds * time.Second, in nanoseconds. */
  const Ttl: int := TtlSeconds * NanosPerSecond
  /** bolt.MaxKeySize, in bytes. */
  const MaxKeySize: int := 32768

  /**
    * A stored value as time.Parse(time.RFC3339, v) reads it: the instant it
    * denotes, or Corrupt when it does not parse.
    */
  datatype Stamp = At(nanos: int) | Corrupt

  /**
    * The value AddIP stores, time.Now().Format(time.RFC3339), as Parse
    * reads it back: RFC 3339 text written this way carries no fraction of a
    * second, so the instant comes back truncated to the whole second.
    */
  function Format(now: int): (v: Stamp)
    ensures v.At? && v.nanos <= now < v.nanos + NanosPerSecond
    ensures v.nanos % NanosPerSecond == 0
  {
    At(now / NanosPerSecond * NanosPerSecond)
  }

  /**
    * Counted and listed by the per-inbound scans: parsed and younger than
    * the TTL. A value AddIP writes is active when it is written.
    */
  predicate Active(v: Stamp, now: int): (r: bool)
    ensures r ==> v.At?
    ensures v == Format(now) ==> r
  {
    v.At? && now - v.nanos < Ttl
  }

  /**
    * Counted by the aggregate scan: parsed and not older than the TTL. It
    * takes every active value, and one more instant: the value exactly the
    * TTL old.
    */
  predicate Recent(v: Stamp, now: int): (r: bool)
    ensures Active(v, now) ==> r
    ensures (r && !Active(v, now)) <==> v.At? && now == v.nanos + TtlSeconds * NanosPerSecond
  {
    v.At? && !(now - v.nanos > Ttl)
  }

  datatype Entry = Entry(key: string, value: Stamp)

  datatype PutError = ErrKeyRequired | ErrKeyTooLarge

  datatype TotalUsersCountResult = TotalUsersCountResult(total: int, inbounds: map<string, int>)

  // ---------------------------------------------------------------------------
  // Key order

  /** Bolt orders keys bytewise; on UTF-8 text that is the order of code points. */
  predicate KeyLess(a: string, b: string)
    decreases |a|
  {
    if |a| == 0 then |b| > 0
    else |b| > 0 && (a[0] < b[0] || (a[0] == b[0] && KeyLess(a[1..], b[1..])))
  }

  lemma {:induction false} KeyLessIrreflexive(a: string)
    ensures !KeyLess(a, a)
    decreases |a|
  {
    if |a| > 0 {
      KeyLessIrreflexive(a[1..]);
    }
  }

  lemma {:induction false} KeyLessTransitive(a: string, b: string, c: string)
    requires KeyLess(a, b) && KeyLess(b, c)
    ensures KeyLess(a, c)
    decreases |a|
  {
    if |a| > 0 && a[0] == b[0] && b[0] == c[0] {
      KeyLessTransitive(a[1..], b[1..], c[1..]);
    }
  }

  lemma {:induction false} KeyLessTotal(a: string, b: string)
    ensures a == b || KeyLess(a, b) || KeyLess(b, a)
    decreases |a|
  {
    if |a| > 0 && |b| > 0 && a[0] == b[0] {
      KeyLessTotal(a[1..], b[1..]);
      if a[1..] == b[1..] {
        assert a == [a[0]] + a[1..] && b == [b[0]] + b[1..];
      }
    }
  }

  /** A common prefix does not change the order. */
  lemma {:induction false} KeyLessCommonPrefix(p: string, a: string, b: string)
    ensures KeyLess(p + a, p + b) <==> KeyLess(a, b)
    decreases |p|
  {
    if |p| > 0 {
      assert (p + a)[1..] == p[1..] + a && (p + b)[1..] == p[1..] + b;
      KeyLessCommonPrefix(p[1..], a, b);
    } else {
      assert p + a == a && p + b == b;
    }
  }

  /** Strictly increasing keys: the bucket's iteration order, with each key once. */
  predicate Sorted(es: seq<Entry>) {
    forall i, j :: 0 <= i < j < |es| ==> KeyLess(es[i].key, es[j].key)
  }

  /** A bucket in key order holds each key once: distinct positions carry distinct keys. */
  lemma SortedKeysDistinct(es: seq<Entry>, i: nat, j: nat)
    requires Sorted(es) && i < |es| && j < |es| && i != j
    ensures es[i].key != es[j].key
  {
    if i < j {
      KeyLessIrreflexive(es[i].key);
    } else {
      KeyLessIrreflexive(es[j].key);
    }
  }

  /** Strictly increasing strings. */
  predicate Ascending(s: seq<string>) {
    forall i, j :: 0 <= i < j < |s| ==> KeyLess(s[i], s[j])
  }

  // ---------------------------------------------------------------------------
  // The bucket as a map

  /** The key/value view of an entry sequence. */
  function MapOf(es: seq<Entry>): map<string, Stamp>
    decreases |es|
  {
    if es == [] then map[]
    else MapOf(es[..|es| - 1])[es[|es| - 1].key := es[|es| - 1].value]
  }

  lemma {:induction false} MapOfKeys(es: seq<Entry>)
    ensures forall k :: k in MapOf(es) <==> exists j :: 0 <= j < |es| && es[j].key == k
    decreases |es|
  {
    if es != [] {
      var init := es[..|es| - 1];
      MapOfKeys(init);
      forall k | k in MapOf(es)
        ensures exists j :: 0 <= j < |es| && es[j].key == k
      {
        if k != es[|es| - 1].key {
          assert k in MapOf(init);
          var j :| 0 <= j < |init| && init[j].key == k;
          assert es[j].key == k;
        }
      }
      forall k | exists j :: 0 <= j < |es| && es[j].key == k
        ensures k in MapOf(es)
      {
        var j :| 0 <= j < |es| && es[j].key == k;
        if j < |init| {
          assert init[j].key == k;
        }
      }
    }
  }

  /** The last key of a sorted sequence is not among the earlier ones. */
  lemma LastKeyFresh(es: seq<Entry>)
    requires Sorted(es) && es != []
    ensures es[|es| - 1].key !in MapOf(es[..|es| - 1])
  {
    var init := es[..|es| - 1];
    MapOfKeys(init);
    if es[|es| - 1].key in MapOf(init) {
      var j :| 0 <= j < |init| && init[j].key == es[|es| - 1].key;
      assert KeyLess(es[j].key, es[|es| - 1].key);
      KeyLessIrreflexive(es[j].key);
    }
  }

  lemma {:induction false} MapOfValues(es: seq<Entry>)
    requires Sorted(es)
    ensures forall j :: 0 <= j < |es| ==> es[j].key in MapOf(es) && MapOf(es)[es[j].key] == es[j].value
    decreases |es|
  {
    if es != [] {
      var init := es[..|es| - 1];
      MapOfValues(init);
      forall j | 0 <= j < |es|
        ensures es[j].key in MapOf(es) && MapOf(es)[es[j].key] == es[j].value
      {
        if j < |init| {
          assert init[j] == es[j];
          assert KeyLess(es[j].key, es[|es| - 1].key);
          KeyLessIrreflexive(es[j].key);
        }
      }
    }
  }

  /** On a sorted sequence the map has one key per entry. */
  lemma {:induction false} MapOfSize(es: seq<Entry>)
    requires Sorted(es)
    ensures |MapOf(es)| == |es|
    decreases |es|
  {
    if es != [] {
      MapOfSize(es[..|es| - 1]);
      LastKeyFresh(es);
    }
  }

  lemma {:induction false} MapOfConcat(a: seq<Entry>, b: seq<Entry>)
    ensures MapOf(a + b) == MapOf(a) + MapOf(b)
    decreases |b|
  {
    if b == [] {
      assert a + b == a;
    } else {
      var init := b[..|b| - 1];
      MapOfConcat(a, init);
      assert (a + b)[..|a + b| - 1] == a + init;
    }
  }

  /** No key of a sequence whose keys all lie above `key` is `key`. */
  lemma KeyAbsent(es: seq<Entry>, key: string)
    requires forall j :: 0 <= j < |es| ==> KeyLess(key, es[j].key) || KeyLess(es[j].key, key)
    ensures key !in MapOf(es)
  {
    MapOfKeys(es);
    if key in MapOf(es) {
      var j :| 0 <= j < |es| && es[j].key == key;
      KeyLessIrreflexive(key);
    }
  }

  /** Setting `key` in the middle part of a union is setting it in the union when the right part lacks it. */
  lemma UnionSet(lo: map<string, Stamp>, mid: map<string, Stamp>, hi: map<string, Stamp>, key: string, value: Stamp)
    requires key !in hi
    ensures lo + mid[key := value] + hi == (lo + mid + hi)[key := value]
  {
    var lhs, rhs := lo + mid[key := value] + hi, (lo + mid + hi)[key := value];
    forall x
      ensures x in lhs <==> x in rhs
      ensures x in lhs ==> lhs[x] == rhs[x]
    {
      if x != key {
        assert x in lhs <==> x in lo + mid + hi;
      }
    }
  }

  /** Replacing a middle part by one that sets `key` sets `key` in the whole map when the part after lacks it. */
  lemma SetInMiddle(lo: seq<Entry>, mid: seq<Entry>, mid': seq<Entry>, hi: seq<Entry>, key: string, value: Stamp)
    requires key !in MapOf(hi)
    requires MapOf(mid') == MapOf(mid)[key := value]
    ensures MapOf(lo + mid' + hi) == MapOf(lo + mid + hi)[key := value]
  {
    MapOfConcat(lo + mid, hi);
    MapOfConcat(lo, mid);
    MapOfConcat(lo + mid', hi);
    MapOfConcat(lo, mid');
    UnionSet(MapOf(lo), MapOf(mid), MapOf(hi), key, value);
  }

  /** Overwriting the entry that holds `key` keeps the order and changes the map only at `key`. */
  lemma OverwriteAt(es: seq<Entry>, i: nat, value: Stamp)
    requires Sorted(es) && i < |es|
    ensures Sorted(es[i := Entry(es[i].key, value)])
    ensures MapOf(es[i := Entry(es[i].key, value)]) == MapOf(es)[es[i].key := value]
  {
    var key := es[i].key;
    var lo, hi := es[..i], es[i + 1..];
    assert es == lo + [es[i]] + hi;
    assert es[i := Entry(key, value)] == lo + [Entry(key, value)] + hi;
    assert [es[i]][..0] == [] && [Entry(key, value)][..0] == [];
    KeyAbsent(hi, key);
    SetInMiddle(lo, [es[i]], [Entry(key, value)], hi, key, value);
  }

  /** Inserting between the keys below and the keys above `key` keeps the order. */
  lemma InsertSorted(es: seq<Entry>, i: nat, key: string, value: Stamp)
    requires Sorted(es) && i <= |es|
    requires forall j :: 0 <= j < i ==> KeyLess(es[j].key, key)
    requires forall j :: i <= j < |es| ==> KeyLess(key, es[j].key)
    ensures Sorted(es[..i] + [Entry(key, value)] + es[i..])
  {
    var b := es[..i] + [Entry(key, value)] + es[i..];
    forall p, q | 0 <= p < q < |b|
      ensures KeyLess(b[p].key, b[q].key)
    {
      if p < i && q > i {
        KeyLessTransitive(b[p].key, key, b[q].key);
      }
    }
  }

  /** Inserting a key at its place in the order sets it in the map. */
  lemma InsertAt(es: seq<Entry>, i: nat, key: string, value: Stamp)
    requires Sorted(es) && i <= |es|
    requires forall j :: 0 <= j < i ==> KeyLess(es[j].key, key)
    requires forall j :: i <= j < |es| ==> KeyLess(key, es[j].key)
    ensures Sorted(es[..i] + [Entry(key, value)] + es[i..])
    ensures MapOf(es[..i] + [Entry(key, value)] + es[i..]) == MapOf(es)[key := value]
  {
    InsertSorted(es, i, key, value);
    var lo, hi := es[..i], es[i..];
    assert es == lo + [] + hi;
    assert [Entry(key, value)][..0] == [];
    KeyAbsent(hi, key);
    SetInMiddle(lo, [], [Entry(key, value)], hi, key, value);
  }

  // ---------------------------------------------------------------------------
  // What the scans keep, count and tally

  /** The criteria by which the scans treat an entry. */
  datatype Rule =
    | Survives(prefix: string, now: int)  // left in place by GetActiveIPCount and ListActiveIPs
    | Counted(prefix: string, now: int)   // counted by GetActiveIPCount, listed by ListActiveIPs
    | Tallied(now: int)                   // counted in GetTotalUsersCount's total
    | TalliedOn(inbound: string, now: int) // counted under `inbound` by GetTotalUsersCount

  predicate Holds(r: Rule, e: Entry) {
    match r
    case Survives(p, now) => !HasPrefix(e.key, p) || Active(e.value, now)
    case Counted(p, now) => HasPrefix(e.key, p) && Active(e.value, now)
    case Tallied(now) => |SplitN2(e.key, ":")| == 2 && Recent(e.value, now)
    case TalliedOn(t, now) =>
      |SplitN2(e.key, ":")| == 2 && Recent(e.value, now) && SplitN2(e.key, ":")[0] == t
  }

  /** The entries the rule accepts, in their order. */
  function Select(es: seq<Entry>, r: Rule): (sel: seq<Entry>)
    ensures |sel| <= |es|
    decreases |es|
  {
    if es == [] then []
    else Select(es[..|es| - 1], r) + (if Holds(r, es[|es| - 1]) then [es[|es| - 1]] else [])
  }

  /** The part of the map the rule accepts. */
  function Where(m: map<string, Stamp>, r: Rule): map<string, Stamp> {
    map k | k in m && Holds(r, Entry(k, m[k])) :: m[k]
  }

  /** The keys the rule accepts. */
  function KeysWhere(m: map<string, Stamp>, r: Rule): set<string> {
    set k | k in m && Holds(r, Entry(k, m[k]))
  }

  lemma {:induction false} SelectMembers(es: seq<Entry>, r: Rule)
    ensures forall e :: e in Select(es, r) <==> e in es && Holds(r, e)
    decreases |es|
  {
    if es != [] {
      var init := es[..|es| - 1];
      SelectMembers(init, r);
      assert es == init + [es[|es| - 1]];
    }
  }

  lemma {:induction false} SelectSorted(es: seq<Entry>, r: Rule)
    requires Sorted(es)
    ensures Sorted(Select(es, r))
    decreases |es|
  {
    if es != [] {
      var init, last := es[..|es| - 1], es[|es| - 1];
      SelectSorted(init, r);
      if Holds(r, last) {
        var s := Select(init, r);
        SelectMembers(init, r);
        forall i | 0 <= i < |s|
          ensures KeyLess(s[i].key, last.key)
        {
          assert s[i] in init;
          var j :| 0 <= j < |init| && init[j] == s[i];
          assert es[j] == s[i];
        }
        assert Select(es, r) == s + [last];
      }
    }
  }

  /** Adding `k` leaves what the rule keeps of every other key as it was. */
  lemma WhereOther(m: map<string, Stamp>, k: string, v: Stamp, r: Rule, x: string)
    requires x != k
    ensures x in Where(m[k := v], r) <==> x in Where(m, r)
    ensures x in Where(m, r) ==> Where(m[k := v], r)[x] == Where(m, r)[x]
  {
    if x in m {
      assert m[k := v][x] == m[x];
    }
  }

  /** The rule keeps the added key exactly when it accepts its entry. */
  lemma WhereNew(m: map<string, Stamp>, k: string, v: Stamp, r: Rule)
    requires k !in m
    ensures k in Where(m[k := v], r) <==> Holds(r, Entry(k, v))
    ensures k in Where(m[k := v], r) ==> Where(m[k := v], r)[k] == v
    ensures k !in Where(m, r)
  {
    assert m[k := v][k] == v;
  }

  lemma WhereExtend(m: map<string, Stamp>, k: string, v: Stamp, r: Rule)
    requires k !in m
    ensures Where(m[k := v], r) == if Holds(r, Entry(k, v)) then Where(m, r)[k := v] else Where(m, r)
  {
    WhereNew(m, k, v, r);
    if Holds(r, Entry(k, v)) {
      WhereKept(m, k, v, r);
    } else {
      WhereDropped(m, k, v, r);
    }
  }

  /** Adding a key the rule accepts adds it to what the rule keeps. */
  lemma WhereKept(m: map<string, Stamp>, k: string, v: Stamp, r: Rule)
    requires k in Where(m[k := v], r) && Where(m[k := v], r)[k] == v
    ensures Where(m[k := v], r) == Where(m, r)[k := v]
  {
    var lhs, rhs := Where(m[k := v], r), Where(m, r)[k := v];
    forall x | x in lhs || x in rhs
      ensures x in lhs && x in rhs && lhs[x] == rhs[x]
    {
      if x != k {
        WhereOther(m, k, v, r, x);
      }
    }
    SameEntries(lhs, rhs);
  }

  /** Two maps with the same keys and the same value at each are equal. */
  lemma SameEntries(a: map<string, Stamp>, b: map<string, Stamp>)
    requires forall x :: x in a || x in b ==> x in a && x in b && a[x] == b[x]
    ensures a == b
  {
    assert a.Keys == b.Keys;
  }

  /** Adding a key the rule refuses leaves what the rule keeps as it was. */
  lemma WhereDropped(m: map<string, Stamp>, k: string, v: Stamp, r: Rule)
    requires k !in Where(m[k := v], r) && k !in Where(m, r)
    ensures Where(m[k := v], r) == Where(m, r)
  {
    var lhs, rhs := Where(m[k := v], r), Where(m, r);
    forall x | x in lhs || x in rhs
      ensures x in lhs && x in rhs && lhs[x] == rhs[x]
    {
      WhereOther(m, k, v, r, x);
    }
    SameEntries(lhs, rhs);
  }

  /** The rule applied to the sequence is the rule applied to the map. */
  lemma {:induction false} SelectContents(es: seq<Entry>, r: Rule)
    requires Sorted(es)
    ensures MapOf(Select(es, r)) == Where(MapOf(es), r)
    decreases |es|
  {
    if es != [] {
      var init, last := es[..|es| - 1], es[|es| - 1];
      var s := Select(init, r);
      SelectContents(init, r);
      LastKeyFresh(es);
      assert last == Entry(last.key, last.value);
      WhereExtend(MapOf(init), last.key, last.value, r);
      if Holds(r, last) {
        assert (s + [last])[..|s|] == s;
        calc {
          MapOf(Select(es, r));
          MapOf(s + [last]);
          MapOf(s)[last.key := last.value];
          Where(MapOf(init)[last.key := last.value], r);
        }
      } else {
        assert Select(es, r) == s + [] == s;
        calc {
          MapOf(Select(es, r));
          MapOf(s);
          Where(MapOf(init), r);
          Where(MapOf(init)[last.key := last.value], r);
          Where(MapOf(es), r);
        }
      }
    }
  }

  /** On a sorted sequence, the number of selected entries is the number of accepted keys. */
  lemma SelectCount(es: seq<Entry>, r: Rule)
    requires Sorted(es)
    ensures |Select(es, r)| == |KeysWhere(MapOf(es), r)|
  {
    SelectSorted(es, r);
    MapOfSize(Select(es, r));
    SelectContents(es, r);
    assert KeysWhere(MapOf(es), r) == Where(MapOf(es), r).Keys;
  }

  /** The addresses of the given entries: each key with `prefix` removed. */
  function Addresses(es: seq<Entry>, prefix: string): (ips: seq<string>)
    ensures |ips| == |es|
    ensures forall j :: 0 <= j < |es| ==> ips[j] == TrimPrefix(es[j].key, prefix)
    decreases |es|
  {
    if es == [] then []
    else Addresses(es[..|es| - 1], prefix) + [TrimPrefix(es[|es| - 1].key, prefix)]
  }

  /**
    * `ip` is listed for `prefix` exactly when `prefix + ip` is an active key,
    * and the list is in key order.
    */
  lemma ListedAddresses(es: seq<Entry>, prefix: string, now: int)
    requires Sorted(es)
    ensures forall ip :: ip in Addresses(Select(es, Counted(prefix, now)), prefix)
                     <==> prefix + ip in KeysWhere(MapOf(es), Counted(prefix, now))
    ensures Ascending(Addresses(Select(es, Counted(prefix, now)), prefix))
  {
    ListedMembers(es, prefix, now);
    ListedAscending(es, prefix, now);
  }

  /** Each listed address, prefix put back, is the key of its entry. */
  lemma ListedKeys(es: seq<Entry>, prefix: string, now: int, hits: seq<Entry>, ips: seq<string>)
    requires hits == Select(es, Counted(prefix, now)) && ips == Addresses(hits, prefix)
    ensures |ips| == |hits| && forall j :: 0 <= j < |hits| ==> prefix + ips[j] == hits[j].key
  {
    var r := Counted(prefix, now);
    SelectMembers(es, r);
    forall j | 0 <= j < |hits|
      ensures prefix + ips[j] == hits[j].key
    {
      assert hits[j] in es && Holds(r, hits[j]);
    }
  }

  /** The listed addresses are those of the active keys under `prefix`. */
  lemma ListedMembers(es: seq<Entry>, prefix: string, now: int)
    requires Sorted(es)
    ensures forall ip :: ip in Addresses(Select(es, Counted(prefix, now)), prefix)
                     <==> prefix + ip in KeysWhere(MapOf(es), Counted(prefix, now))
  {
    var r := Counted(prefix, now);
    var hits := Select(es, r);
    var ips := Addresses(hits, prefix);
    ListedKeys(es, prefix, now, hits, ips);
    SelectSorted(es, r);
    SelectContents(es, r);
    MapOfKeys(hits);
    MapOfValues(hits);
    forall ip | ip in ips
      ensures prefix + ip in KeysWhere(MapOf(es), r)
    {
      var j :| 0 <= j < |ips| && ips[j] == ip;
      assert hits[j].key in MapOf(hits);
    }
    forall ip | prefix + ip in KeysWhere(MapOf(es), r)
      ensures ip in ips
    {
      assert prefix + ip in MapOf(hits);
      var j :| 0 <= j < |hits| && hits[j].key == prefix + ip;
      TrimPrefixOfConcat(prefix, ip);
      assert ips[j] == ip;
    }
  }

  /** The listed addresses are in key order. */
  lemma ListedAscending(es: seq<Entry>, prefix: string, now: int)
    requires Sorted(es)
    ensures Ascending(Addresses(Select(es, Counted(prefix, now)), prefix))
  {
    var r := Counted(prefix, now);
    var hits := Select(es, r);
    var ips := Addresses(hits, prefix);
    ListedKeys(es, prefix, now, hits, ips);
    SelectSorted(es, r);
    forall i, j | 0 <= i < j < |ips|
      ensures KeyLess(ips[i], ips[j])
    {
      KeyLessCommonPrefix(prefix, ips[i], ips[j]);
    }
  }


  /**
    * The addresses listed for `inbound`: one per active key under it, `ip`
    * listed exactly when `inbound:ip` is an active key, in key order.
    */
  lemma ListedFor(es: seq<Entry>, inbound: string, now: int)
    requires Sorted(es)
    ensures |Addresses(Select(es, Counted(inbound + ":", now)), inbound + ":")|
         == |KeysWhere(MapOf(es), Counted(inbound + ":", now))|
    ensures forall ip :: ip in Addresses(Select(es, Counted(inbound + ":", now)), inbound + ":")
                     <==> inbound + ":" + ip in KeysWhere(MapOf(es), Counted(inbound + ":", now))
    ensures Ascending(Addresses(Select(es, Counted(inbound + ":", now)), inbound + ":"))
  {
    var prefix := inbound + ":";
    SelectCount(es, Counted(prefix, now));
    ListedAddresses(es, prefix, now);
    forall ip
      ensures inbound + ":" + ip == prefix + ip
    {
      assert inbound + ":" + ip == inbound + (":" + ip);
    }
  }

  lemma AddressesSnoc(hits: seq<Entry>, e: Entry, prefix: string)
    ensures Addresses(hits + [e], prefix) == Addresses(hits, prefix) + [TrimPrefix(e.key, prefix)]
  {
    assert (hits + [e])[..|hits|] == hits;
  }

  /** One more entry visited by a scan. */
  lemma SelectSnoc(es: seq<Entry>, i: nat, r: Rule)
    requires i < |es|
    ensures Select(es[..i + 1], r) == Select(es[..i], r) + (if Holds(r, es[i]) then [es[i]] else [])
  {
    assert es[..i + 1][..i] == es[..i];
  }

  /**
    * The bucket seen by a scan's cursor: the entries kept so far, then the
    * ones not yet visited. Deleting or stepping over the entry under the
    * cursor moves it on.
    */
  lemma CursorStep(kept: seq<Entry>, rest: seq<Entry>)
    requires rest != []
    ensures (kept + rest)[|kept|] == rest[0]
    ensures (kept + rest)[..|kept|] + (kept + rest)[|kept| + 1..] == kept + rest[1..]
    ensures kept + rest == (kept + [rest[0]]) + rest[1..]
  {
    assert (kept + rest)[..|kept|] == kept;
    assert (kept + rest)[|kept| + 1..] == rest[1..];
  }

  /**
    * The bucket seen by a sweep after `i` visited entries of `snapshot`: the
    * surviving ones, then the rest. Visiting the next entry either steps
    * over it or deletes it.
    */
  lemma SweepStep(snapshot: seq<Entry>, i: nat, kept: seq<Entry>, r: Rule)
    requires i < |snapshot| && kept == Select(snapshot[..i], r)
    ensures Select(snapshot[..i + 1], r) == kept + (if Holds(r, snapshot[i]) then [snapshot[i]] else [])
    ensures (kept + snapshot[i..])[|kept|] == snapshot[i]
    ensures kept + snapshot[i..] == (kept + [snapshot[i]]) + snapshot[i + 1..]
    ensures (kept + snapshot[i..])[..|kept|] + (kept + snapshot[i..])[|kept| + 1..] == kept + snapshot[i + 1..]
  {
    SelectSnoc(snapshot, i, r);
    CursorStep(kept, snapshot[i..]);
    assert snapshot[i..][1..] == snapshot[i + 1..];
  }

  /** The count of accepted entries after one more visited entry. */
  lemma CountStep(snapshot: seq<Entry>, i: nat, r: Rule)
    requires i < |snapshot|
    ensures |Select(snapshot[..i + 1], r)| == |Select(snapshot[..i], r)| + (if Holds(r, snapshot[i]) then 1 else 0)
  {
    SelectSnoc(snapshot, i, r);
  }

  /** What a scan that has visited every entry of a sorted `snapshot` leaves behind. */
  lemma SweepDone(snapshot: seq<Entry>, i: nat, kept: seq<Entry>, prefix: string, now: int)
    requires Sorted(snapshot) && i == |snapshot|
    requires kept == Select(snapshot[..i], Survives(prefix, now))
    ensures kept + snapshot[i..] == Select(snapshot, Survives(prefix, now))
    ensures Sorted(kept + snapshot[i..])
    ensures MapOf(kept + snapshot[i..]) == Where(MapOf(snapshot), Survives(prefix, now))
    ensures |Select(snapshot[..i], Counted(prefix, now))| == |KeysWhere(MapOf(snapshot), Counted(prefix, now))|
    ensures Select(snapshot[..i], Counted(prefix, now)) == Select(snapshot, Counted(prefix, now))
  {
    assert snapshot[..i] == snapshot && snapshot[i..] == [];
    assert kept + [] == kept;
    SelectSorted(snapshot, Survives(prefix, now));
    SelectContents(snapshot, Survives(prefix, now));
    SelectCount(snapshot, Counted(prefix, now));
  }

  /**
    * One step of the cursor of GetActiveIPCount and ListActiveIPs over the
    * bucket `es`, at index `c`: an entry under `prefix` whose value does not
    * parse or is at least the TTL old is deleted (the cursor then stands on
    * the next entry), any other entry is stepped over. `hit` tells whether
    * the entry is one of the active entries under `prefix`.
    */
  method Visit(es: seq<Entry>, c: nat, prefix: string, now: int) returns (next: seq<Entry>, c': nat, hit: bool)
    requires c < |es|
    ensures hit == Holds(Counted(prefix, now), es[c])
    ensures Holds(Survives(prefix, now), es[c]) ==> next == es && c' == c + 1
    ensures !Holds(Survives(prefix, now), es[c]) ==> next == es[..c] + es[c + 1..] && c' == c
  {
    var e := es[c];
    next, c', hit := es, c + 1, false;
    if HasPrefix(e.key, prefix) {
      match e.value
      case Corrupt =>
        next, c' := es[..c] + es[c + 1..], c;
      case At(ts) =>
        if now - ts < Ttl {
          hit := true;
        } else {
          next, c' := es[..c] + es[c + 1..], c;
        }
    }
  }

  // ---------------------------------------------------------------------------
  // Sums over the aggregate's map

  ghost function MapSum(m: map<string, int>): int
    decreases |m|
  {
    if m == map[] then 0
    else
      var k :| k in m;
      m[k] + MapSum(m - {k})
  }

  lemma {:induction false} MapSumRemove(m: map<string, int>, k: string)
    requires k in m
    ensures MapSum(m) == m[k] + MapSum(m - {k})
    decreases |m|
  {
    var j :| j in m && MapSum(m) == m[j] + MapSum(m - {j});
    if j != k {
      var mj, mk := m - {j}, m - {k};
      MapSumRemove(mj, k);
      MapSumRemove(mk, j);
      assert mj - {k} == mk - {j};
    }
  }

  lemma MapSumUpdate(m: map<string, int>, k: string, v: int)
    ensures MapSum(m[k := v]) == MapSum(m) - (if k in m then m[k] else 0) + v
  {
    MapSumRemove(m[k := v], k);
    assert m[k := v] - {k} == m - {k};
    if k in m {
      MapSumRemove(m, k);
    } else {
      assert m - {k} == m;
    }
  }

  /**
    * GetTotalUsersCount's accumulation over a run of entries: keys without
    * ':' and entries that fail Recent are skipped, every other entry adds one
    * to the total and one to the count of the text before its first ':'.
    */
  function Tally(es: seq<Entry>, now: int): TotalUsersCountResult
    decreases |es|
  {
    if es == [] then TotalUsersCountResult(0, map[])
    else TallyOne(Tally(es[..|es| - 1], now), es[|es| - 1], now)
  }

  /**
    * One turn of GetTotalUsersCount's cursor loop: a key with a ":" whose
    * value parses as a stamp within the TTL adds one to the total and one
    * to its inbound, which starts at zero; any other entry is skipped.
    */
  function TallyOne(prev: TotalUsersCountResult, e: Entry, now: int): TotalUsersCountResult {
    var parts := SplitN2(e.key, ":");
    if |parts| == 2 && Recent(e.value, now) then
      var n := if parts[0] in prev.inbounds then prev.inbounds[parts[0]] else 0;
      TotalUsersCountResult(prev.total + 1, prev.inbounds[parts[0] := n + 1])
    else prev
  }

  /** The tally of one more entry of a bucket. */
  lemma TallyNext(es: seq<Entry>, i: nat, now: int)
    requires i < |es|
    ensures Tally(es[..i + 1], now) == TallyOne(Tally(es[..i], now), es[i], now)
  {
    assert es[..i + 1][..i] == es[..i];
  }

  /**
    * The tally counts the tallied entries, has a key for each inbound with at
    * least one such entry, counts those entries under it, and its total is
    * the sum of its per-inbound counts.
    */
  lemma {:induction false} TallyMeaning(es: seq<Entry>, now: int)
    ensures Tally(es, now).total == |Select(es, Tallied(now))|
    ensures forall t :: t in Tally(es, now).inbounds <==> |Select(es, TalliedOn(t, now))| > 0
    ensures forall t :: t in Tally(es, now).inbounds ==> Tally(es, now).inbounds[t] == |Select(es, TalliedOn(t, now))|
    ensures Tally(es, now).total == MapSum(Tally(es, now).inbounds)
    decreases |es|
  {
    if es != [] {
      var init, e := es[..|es| - 1], es[|es| - 1];
      TallyMeaning(init, now);
      var prev := Tally(init, now);
      var parts := SplitN2(e.key, ":");
      if |parts| == 2 && Recent(e.value, now) {
        var n := if parts[0] in prev.inbounds then prev.inbounds[parts[0]] else 0;
        MapSumUpdate(prev.inbounds, parts[0], n + 1);
      }
      forall t
        ensures Select(es, TalliedOn(t, now)) == Select(init, TalliedOn(t, now)) + (if Holds(TalliedOn(t, now), e) then [e] else [])
      {
      }
    }
  }

  /** The tally of a bucket in key order, stated on the bucket's map. */
  lemma TallyCounts(es: seq<Entry>, now: int)
    requires Sorted(es)
    ensures Tally(es, now).total == |KeysWhere(MapOf(es), Tallied(now))|
    ensures forall t :: t in Tally(es, now).inbounds <==> KeysWhere(MapOf(es), TalliedOn(t, now)) != {}
    ensures forall t :: t in Tally(es, now).inbounds ==> Tally(es, now).inbounds[t] == |KeysWhere(MapOf(es), TalliedOn(t, now))|
    ensures Tally(es, now).total == MapSum(Tally(es, now).inbounds)
  {
    TallyMeaning(es, now);
    SelectCount(es, Tallied(now));
    forall t
      ensures |Select(es, TalliedOn(t, now))| == |KeysWhere(MapOf(es), TalliedOn(t, now))|
    {
      SelectCount(es, TalliedOn(t, now));
    }
  }

  // ---------------------------------------------------------------------------
  // Properties of the store across operations

  /**
    * An address recorded at `n` is active under its inbound at any `now`
    * less than the TTL after the whole second `n` is truncated to, whatever
    * else the bucket holds: GetActiveIPCount then counts at least one entry
    * and ListActiveIPs lists the address.
    */
  lemma RecordedIsActive(m: map<string, Stamp>, inbound: string, ip: string, n: int, now: int)
    requires now - Format(n).nanos < Ttl
    ensures inbound + ":" + ip in KeysWhere(m[inbound + ":" + ip := Format(n)], Counted(inbound + ":", now))
    ensures |KeysWhere(m[inbound + ":" + ip := Format(n)], Counted(inbound + ":", now))| >= 1
  {
    var key := inbound + ":" + ip;
    assert key == (inbound + ":") + ip;
    TrimPrefixOfConcat(inbound + ":", ip);
    assert Holds(Counted(inbound + ":", now), Entry(key, Format(n)));
    var keys := KeysWhere(m[key := Format(n)], Counted(inbound + ":", now));
    assert key in keys;
    assert |keys - {key}| == |keys| - 1;
  }

  /**
    * An entry exactly the TTL old sits on the boundary the scans draw
    * differently: the aggregate still counts it, the per-inbound scans
    * neither count nor keep it.
    */
  lemma AgeIsTtl(inbound: string, ip: string, ts: int, now: int)
    requires now - ts == Ttl
    ensures !Holds(Counted(inbound + ":", now), Entry(inbound + ":" + ip, At(ts)))
    ensures !Holds(Survives(inbound + ":", now), Entry(inbound + ":" + ip, At(ts)))
    ensures Holds(Tallied(now), Entry(inbound + ":" + ip, At(ts)))
  {
    var key := inbound + ":" + ip;
    assert key == (inbound + ":") + ip;
    TrimPrefixOfConcat(inbound + ":", ip);
    assert OccursAt(key, ":", |inbound|);
  }

  /** A string free of `sep` of length one has no `sep` at any index. */
  lemma NoneAt(s: string, sep: char, i: int)
    requires !Contains(s, [sep]) && 0 <= i < |s|
    ensures s[i] != sep
  {
    ghost var here := OccursAt(s, [sep], i);
  }

  /** Colon-free tags: `u:a` lies under the prefix `t:` only when `u` is `t`. */
  lemma {:induction false} TagPrefix(t: string, u: string, a: string)
    requires !Contains(t, ":") && !Contains(u, ":")
    ensures HasPrefix(u + ":" + a, t + ":") <==> t == u
  {
    var key, p := u + ":" + a, t + ":";
    if t == u {
      assert key == p + a;
      TrimPrefixOfConcat(p, a);
    } else if HasPrefix(key, p) {
      if |t| < |u| {
        ghost var same := key[|t|] == p[|t|];
        NoneAt(u, ':', |t|);
      } else if |t| > |u| {
        ghost var same := key[|u|] == p[|u|];
        NoneAt(t, ':', |u|);
      } else {
        assert forall k :: 0 <= k < |t| ==> t[k] == p[k] == key[k] == u[k];
      }
    }
  }

  /**
    * The per-inbound scans of a colon-free tag `t` neither count, nor list,
    * nor delete, nor change an entry recorded for another colon-free tag.
    */
  lemma OtherTagsUntouched(m: map<string, Stamp>, t: string, u: string, a: string, now: int)
    requires !Contains(t, ":") && !Contains(u, ":") && t != u
    requires u + ":" + a in m
    ensures u + ":" + a !in KeysWhere(m, Counted(t + ":", now))
    ensures u + ":" + a in Where(m, Survives(t + ":", now))
    ensures Where(m, Survives(t + ":", now))[u + ":" + a] == m[u + ":" + a]
  {
    TagPrefix(t, u, a);
  }

  /**
    * Sweeping twice at the same instant is sweeping once: the second scan
    * deletes nothing and counts what the first one counted.
    */
  lemma SweepIdempotent(m: map<string, Stamp>, prefix: string, now: int)
    ensures Where(Where(m, Survives(prefix, now)), Survives(prefix, now)) == Where(m, Survives(prefix, now))
    ensures KeysWhere(Where(m, Survives(prefix, now)), Counted(prefix, now)) == KeysWhere(m, Counted(prefix, now))
  {
    var r := Survives(prefix, now);
    var once := Where(m, r);
    var twice := Where(once, r);
    forall k
      ensures k in twice <==> k in once
      ensures k in twice ==> twice[k] == once[k]
    {
      if k in once {
        assert Holds(r, Entry(k, m[k]));
      }
    }
    var lhs := KeysWhere(once, Counted(prefix, now));
    var rhs := KeysWhere(m, Counted(prefix, now));
    forall k
      ensures k in lhs <==> k in rhs
    {
      if k in rhs {
        assert Holds(r, Entry(k, m[k]));
      }
    }
  }

  // ---------------------------------------------------------------------------
  // The store

  class BoltDB {
    /** The bucket's key/value pairs in key order. */
    var entries: seq<Entry>

    ghost predicate Valid()
      reads this
    {
      Sorted(entries)
    }

    /** The bucket as a map from key to value. */
    function Contents(): map<string, Stamp>
      reads this
    {
      MapOf(entries)
    }

    /** A store over an existing bucket. */
    constructor (existing: seq<Entry>)
      requires Sorted(existing)
      ensures Valid() && entries == existing
    {
      entries := existing;
    }

    /** bolt's Bucket.Put: insert or overwrite `key`, keeping key order. */
    method Put(key: string, value: Stamp) returns (err: Option<PutError>)
      requires Valid()
      modifies this
      ensures Valid()
      ensures |key| == 0 ==> err == Some(ErrKeyRequired)
      ensures |key| > 0 && ByteLen(key) > MaxKeySize ==> err == Some(ErrKeyTooLarge)
      ensures err.None? <==> |key| > 0 && ByteLen(key) <= MaxKeySize
      ensures err.None? ==> Contents() == old(Contents())[key := value]
      ensures err.Some? ==> entries == old(entries)
    {
      if |key| == 0 {
        return Some(ErrKeyRequired);
      }
      if ByteLen(key) > MaxKeySize {
        return Some(ErrKeyTooLarge);
      }
      var i := 0;
      while i < |entries| && KeyLess(entries[i].key, key)
        invariant 0 <= i <= |entries|
        invariant forall j :: 0 <= j < i ==> KeyLess(entries[j].key, key)
      {
        i := i + 1;
      }
      if i < |entries| && entries[i].key == key {
        OverwriteAt(entries, i, value);
        entries := entries[i := Entry(key, value)];
      } else {
        if i < |entries| {
          KeyLessTotal(entries[i].key, key);
          forall j | i < j < |entries|
            ensures KeyLess(key, entries[j].key)
          {
            KeyLessTransitive(key, entries[i].key, entries[j].key);
          }
        }
        InsertAt(entries, i, key, value);
        entries := entries[..i] + [Entry(key, value)] + entries[i..];
      }
      err := None;
    }

    /** Records that `ip` was seen on `inbound` at `now`. */
    method AddIP(inbound: string, ip: string, now: int) returns (err: Option<PutError>)
      requires Valid()
      modifies this
      ensures Valid()
      ensures err.None? <==> ByteLen(inbound + ":" + ip) <= MaxKeySize
      ensures err.None? ==> Contents() == old(Contents())[inbound + ":" + ip := Format(now)]
      ensures err.Some? ==> err == Some(ErrKeyTooLarge) && entries == old(entries)
    {
      var key := inbound + ":" + ip;
      var value := Format(now);
      err := Put(key, value);
    }

    /**
      * Counts the active entries under `inbound`, deleting the ones under
      * `inbound` that are corrupt or expired.
      */
    method GetActiveIPCount(inbound: string, now: int) returns (count: nat)
      requires Valid()
      modifies this
      ensures Valid()
      ensures entries == Select(old(entries), Survives(inbound + ":", now))
      ensures count == |Select(old(entries), Counted(inbound + ":", now))|
      ensures Contents() == Where(old(Contents()), Survives(inbound + ":", now))
      ensures count == |KeysWhere(old(Contents()), Counted(inbound + ":", now))|
    {
      var prefix := inbound + ":";
      var es := entries;
      ghost var snapshot, i, kept := entries, 0, [];
      var c := 0;
      count := 0;
      while c < |es|
        invariant 0 <= i <= |snapshot|
        invariant kept == Select(snapshot[..i], Survives(prefix, now))
        invariant es == kept + snapshot[i..] && c == |kept|
        invariant count == |Select(snapshot[..i], Counted(prefix, now))|
        decreases |snapshot| - i
      {
        SweepStep(snapshot, i, kept, Survives(prefix, now));
        CountStep(snapshot, i, Counted(prefix, now));
        var hit;
        es, c, hit := Visit(es, c, prefix, now);
        if hit {
          count := count + 1;
        }
        if Holds(Survives(prefix, now), snapshot[i]) {
          kept := kept + [snapshot[i]];
        }
        i := i + 1;
      }
      SweepDone(snapshot, i, kept, prefix, now);
      entries := es;
    }

    /**
      * Lists the addresses of the active entries under `inbound` in key
      * order, deleting the ones under `inbound` that are corrupt or expired.
      */
    method ListActiveIPs(inbound: string, now: int) returns (ips: seq<string>)
      requires Valid()
      modifies this
      ensures Valid()
      ensures entries == Select(old(entries), Survives(inbound + ":", now))
      ensures ips == Addresses(Select(old(entries), Counted(inbound + ":", now)), inbound + ":")
      ensures Contents() == Where(old(Contents()), Survives(inbound + ":", now))
      ensures |ips| == |KeysWhere(old(Contents()), Counted(inbound + ":", now))|
      ensures forall ip :: ip in ips <==> inbound + ":" + ip in KeysWhere(old(Contents()), Counted(inbound + ":", now))
      ensures Ascending(ips)
    {
      var prefix := inbound + ":";
      var es := entries;
      ghost var snapshot, i, kept, hits := entries, 0, [], [];
      var c := 0;
      ips := [];
      while c < |es|
        invariant 0 <= i <= |snapshot|
        invariant kept == Select(snapshot[..i], Survives(prefix, now))
        invariant hits == Select(snapshot[..i], Counted(prefix, now))
        invariant es == kept + snapshot[i..] && c == |kept|
        invariant ips == Addresses(hits, prefix)
        decreases |snapshot| - i
      {
        SweepStep(snapshot, i, kept, Survives(prefix, now));
        SelectSnoc(snapshot, i, Counted(prefix, now));
        var e := es[c];
        var hit;
        es, c, hit := Visit(es, c, prefix, now);
        if hit {
          AddressesSnoc(hits, e, prefix);
          ips := ips + [TrimPrefix(e.key, prefix)];
          hits := hits + [e];
        }
        if Holds(Survives(prefix, now), snapshot[i]) {
          kept := kept + [snapshot[i]];
        }
        i := i + 1;
      }
      SweepDone(snapshot, i, kept, prefix, now);
      ListedFor(snapshot, inbound, now);
      entries := es;
    }

    /**
      * Tallies the entries that are not older than the TTL, in total and per
      * inbound (the key's text before its first ':'); keys without ':' and
      * values that do not parse are skipped. Nothing is deleted.
      */
    method GetTotalUsersCount(now: int) returns (stats: TotalUsersCountResult)
      requires Valid()
      ensures stats.total == |KeysWhere(Contents(), Tallied(now))|
      ensures forall t :: t in stats.inbounds <==> KeysWhere(Contents(), TalliedOn(t, now)) != {}
      ensures forall t :: t in stats.inbounds ==> stats.inbounds[t] == |KeysWhere(Contents(), TalliedOn(t, now))|
      ensures stats.total == MapSum(stats.inbounds)
    {
      stats := TotalUsersCountResult(0, map[]);
      var i := 0;
      while i < |entries|
        invariant 0 <= i <= |entries|
        invariant stats == Tally(entries[..i], now)
      {
        TallyNext(entries, i, now);
        stats := TallyOne(stats, entries[i], now);
        i := i + 1;
      }
      assert entries[..i] == entries;
      TallyCounts(entries, now);
    }
  }

  /**
    * A client of the store: records `ip` on `inbound` at `n`, then lists
    * the inbound's addresses at `now`, less than the TTL after the second
    * `n` falls in. When the key fits, the address is listed.
    */
  method RecordThenList(db: BoltDB, inbound: string, ip: string, n: int, now: int) returns (err: Option<PutError>, ips: seq<string>)
    requires db.Valid()
    requires now - Format(n).nanos < Ttl
    modifies db
    ensures db.Valid()
    ensures err.None? <==> ByteLen(inbound + ":" + ip) <= MaxKeySize
    ensures err.None? ==> ip in ips
  {
    ghost var before := db.Contents();
    err := db.AddIP(inbound, ip, n);
    if err.None? {
      RecordedIsActive(before, inbound, ip, n, now);
    }
    ips := db.ListActiveIPs(inbound, now);
  }
}

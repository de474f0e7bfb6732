/** The station table of 1brc: a fixed array of STATION_COUNT records, one
    per hash slot, each holding a measurement count, sum, minimum and maximum
    and the 100-byte key of the first station that reached the slot.
    Temperatures are integer tenths of a degree. */
module Stations {
  import opened Bytes

  const STATION_COUNT: nat := 10000
  const KEY_SIZE: nat := 100

  /** FLT_MAX, the largest finite f32, in tenths. */
  const FLT_MAX_TENTHS: int := 340282346638528859811704183484516925440 * 10

  /** u32 arithmetic wraps at this modulus. */
  const U32_MODULUS: nat := 0x1_0000_0000

  type u32 = x: int | 0 <= x < 0x1_0000_0000

  /** `char key[KEY_SIZE]`. */
  type Key = s: seq<byte> | |s| == 100 witness Zeros(100)

  /** record_t, with min, max and sum in tenths. */
  datatype Record = Record(count: u32, sum: int, min: int, max: int, key: Key)

  /** A record as the table's allocation leaves it: all zero. */
  const ZERO_RECORD: Record := Record(0, 0, 0, 0, Zeros(100))

  /** A record after main's initialisation loop, which sets only min. */
  const EMPTY_RECORD: Record := ZERO_RECORD.(min := FLT_MAX_TENTHS)

  /** The table when the first block is handled. */
  function InitialTable(): (r: seq<Record>)
    ensures |r| == STATION_COUNT
    ensures forall s :: 0 <= s < |r| ==> r[s] == EMPTY_RECORD
  {
    seq(STATION_COUNT, _ => EMPTY_RECORD)
  }

  /** main's initialisation: zeroed records, then min := FLT_MAX in each. */
  method NewTable() returns (records: array<Record>)
    ensures fresh(records)
    ensures records[..] == InitialTable()
  {
    records := new Record[STATION_COUNT](_ => ZERO_RECORD);
    for i := 0 to STATION_COUNT
      invariant forall k :: 0 <= k < i ==> records[k] == EMPTY_RECORD
      invariant forall k :: i <= k < STATION_COUNT ==> records[k] == ZERO_RECORD
    {
      records[i] := records[i].(min := FLT_MAX_TENTHS);
    }
  }

  /** An initial slot has counted nothing, is unnamed, and has max 0. */
  lemma InitialTableEmpty(s: nat)
    requires s < STATION_COUNT
    ensures InitialTable()[s].count == 0 && InitialTable()[s].sum == 0
    ensures InitialTable()[s].key[0] == 0
    ensures InitialTable()[s].min == FLT_MAX_TENTHS && InitialTable()[s].max == 0
  {
  }

  /** update_record: the record with temp folded in. */
  function Updated(r: Record, temp: int): (u: Record)
    ensures u.count == (r.count + 1) % U32_MODULUS
    ensures u.sum == r.sum + temp
    ensures u.min <= r.min && u.min <= temp && (u.min == r.min || u.min == temp)
    ensures u.max >= r.max && u.max >= temp && (u.max == r.max || u.max == temp)
    ensures u.key == r.key
  {
    Record((r.count + 1) % U32_MODULUS, r.sum + temp,
           if r.min < temp then r.min else temp,
           if r.max > temp then r.max else temp, r.key)
  }

  /** update_record on records[index], field by field. */
  method UpdateRecord(records: array<Record>, index: nat, temp: int)
    requires index < records.Length
    modifies records
    ensures records[..] == old(records[..])[index := Updated(old(records[index]), temp)]
  {
    var record := records[index];
    record := record.(count := (record.count + 1) % U32_MODULUS);
    record := record.(sum := record.sum + temp);
    record := record.(min := if record.min < temp then record.min else temp);
    record := record.(max := if record.max > temp then record.max else temp);
    records[index] := record;
  }

  /** get_record_index_from_key: the key's hash modulo STATION_COUNT. The hash
      sees only sizeof(char *) == 8 bytes of the key, because the key
      parameter is a pointer. */
  function SlotIndex(hash: seq<byte> -> nat, key: Key): (r: nat)
    ensures r < STATION_COUNT
  {
    hash(key[..8]) % STATION_COUNT
  }

  /** Keys that agree on their first eight bytes share a slot. */
  lemma SlotIndexPrefix(hash: seq<byte> -> nat, a: Key, b: Key)
    requires a[..8] == b[..8]
    ensures SlotIndex(hash, a) == SlotIndex(hash, b)
  {
    assert a[..8] == b[..8];
  }

  /** One parsed measurement: the station key as copied and the value. */
  datatype Obs = Obs(key: Key, temp: int)

  /** The record after a measurement: updated, and named by the measurement's
      key if its first key byte is still 0. */
  function Named(r: Record, key: Key): (u: Record)
  {
    if r.key[0] == 0 then r.(key := key) else r
  }

  /** The table after one measurement. */
  function Absorb(t: seq<Record>, o: Obs, hash: seq<byte> -> nat): (r: seq<Record>)
    requires |t| == STATION_COUNT
    ensures |r| == STATION_COUNT
  {
    var s := SlotIndex(hash, o.key);
    t[s := Named(Updated(t[s], o.temp), o.key)]
  }

  /** The table after the measurements, in order. */
  function ApplyAll(t: seq<Record>, obs: seq<Obs>, hash: seq<byte> -> nat): (r: seq<Record>)
    requires |t| == STATION_COUNT
    ensures |r| == STATION_COUNT
  {
    if obs == [] then t
    else Absorb(ApplyAll(t, obs[..|obs| - 1], hash), obs[|obs| - 1], hash)
  }

  lemma ApplyAllAppend(t: seq<Record>, obs: seq<Obs>, o: Obs, hash: seq<byte> -> nat)
    requires |t| == STATION_COUNT
    ensures ApplyAll(t, obs + [o], hash) == Absorb(ApplyAll(t, obs, hash), o, hash)
  {
    assert (obs + [o])[..|obs|] == obs;
  }

  /** Applying two runs of measurements one after the other is applying
      their concatenation. */
  lemma {:induction false} ApplyAllConcat(t: seq<Record>, a: seq<Obs>, b: seq<Obs>, hash: seq<byte> -> nat)
    requires |t| == STATION_COUNT
    ensures ApplyAll(ApplyAll(t, a, hash), b, hash) == ApplyAll(t, a + b, hash)
    decreases |b|
  {
    if b == [] {
      assert a + b == a;
    } else {
      var init := b[..|b| - 1];
      ApplyAllConcat(t, a, init, hash);
      assert (a + b)[..|a + b| - 1] == a + init;
    }
  }

  /** The values of the measurements that land in slot s, in order. */
  function TempsAt(obs: seq<Obs>, s: nat, hash: seq<byte> -> nat): (r: seq<int>)
    ensures |r| <= |obs|
  {
    if obs == [] then []
    else
      var last := obs[|obs| - 1];
      TempsAt(obs[..|obs| - 1], s, hash) + (if SlotIndex(hash, last.key) == s then [last.temp] else [])
  }

  function Sum(xs: seq<int>): int
  {
    if xs == [] then 0 else Sum(xs[..|xs| - 1]) + xs[|xs| - 1]
  }

  /** What a slot holds after the measurements, whatever the keys that hash
      there: the count wraps as a u32, the sum adds up every value, min and
      max are the least and greatest of the start value and every value, and
      the key is kept. */
  predicate Tallies(before: Record, after: Record, temps: seq<int>)
  {
    && after.count == (before.count + |temps|) % U32_MODULUS
    && after.sum == before.sum + Sum(temps)
    && after.min <= before.min && (forall x :: x in temps ==> after.min <= x)
    && (after.min == before.min || after.min in temps)
    && after.max >= before.max && (forall x :: x in temps ==> after.max >= x)
    && (after.max == before.max || after.max in temps)
  }

  /** Every slot tallies exactly the measurements that hash to it; colliding
      stations are merged into one record. */
  lemma {:induction false} ApplyAllTallies(t: seq<Record>, obs: seq<Obs>, hash: seq<byte> -> nat, s: nat)
    requires |t| == STATION_COUNT && s < STATION_COUNT
    ensures Tallies(t[s], ApplyAll(t, obs, hash)[s], TempsAt(obs, s, hash))
  {
    if obs != [] {
      var init, last := obs[..|obs| - 1], obs[|obs| - 1];
      ApplyAllTallies(t, init, hash, s);
      var mid := ApplyAll(t, init, hash)[s];
      var temps := TempsAt(init, s, hash);
      if SlotIndex(hash, last.key) == s {
        assert ApplyAll(t, obs, hash)[s] == Named(Updated(mid, last.temp), last.key);
        assert TempsAt(obs, s, hash) == temps + [last.temp];
        TalliesStep(t[s], mid, temps, last.temp, last.key);
      } else {
        assert TempsAt(obs, s, hash) == temps + [];
        assert temps + [] == temps;
      }
    }
  }

  /** One more value keeps a slot's tally. */
  lemma TalliesStep(before: Record, mid: Record, temps: seq<int>, temp: int, key: Key)
    requires Tallies(before, mid, temps)
    ensures Tallies(before, Named(Updated(mid, temp), key), temps + [temp])
  {
    var after := Named(Updated(mid, temp), key);
    assert Sum(temps + [temp]) == Sum(temps) + temp by {
      assert (temps + [temp])[..|temps|] == temps;
    }
    assert (mid.count + 1) % U32_MODULUS == (before.count + |temps| + 1) % U32_MODULUS;
    forall x | x in temps + [temp] ensures after.min <= x && after.max >= x {
      if x != temp {
        assert x in temps;
      }
    }
  }

  /** A slot no measurement hashes to is unchanged. */
  lemma {:induction false} ApplyAllUntouched(t: seq<Record>, obs: seq<Obs>, hash: seq<byte> -> nat, s: nat)
    requires |t| == STATION_COUNT && s < STATION_COUNT
    requires forall i :: 0 <= i < |obs| ==> SlotIndex(hash, obs[i].key) != s
    ensures ApplyAll(t, obs, hash)[s] == t[s]
  {
    if obs != [] {
      ApplyAllUntouched(t, obs[..|obs| - 1], hash, s);
    }
  }

  /** A named slot keeps its key. */
  lemma {:induction false} ApplyAllKeepsName(t: seq<Record>, obs: seq<Obs>, hash: seq<byte> -> nat, s: nat)
    requires |t| == STATION_COUNT && s < STATION_COUNT && t[s].key[0] != 0
    ensures ApplyAll(t, obs, hash)[s].key == t[s].key
  {
    if obs != [] {
      ApplyAllKeepsName(t, obs[..|obs| - 1], hash, s);
    }
  }

  /** An unnamed slot is named by the first measurement reaching it whose key
      does not start with a 0 byte. */
  lemma {:induction false} ApplyAllFirstName(t: seq<Record>, obs: seq<Obs>, hash: seq<byte> -> nat, s: nat, j: nat)
    requires |t| == STATION_COUNT && s < STATION_COUNT && t[s].key[0] == 0
    requires j < |obs| && SlotIndex(hash, obs[j].key) == s && obs[j].key[0] != 0
    requires forall i :: 0 <= i < j && SlotIndex(hash, obs[i].key) == s ==> obs[i].key[0] == 0
    ensures ApplyAll(t, obs, hash)[s].key == obs[j].key
  {
    var init := obs[..|obs| - 1];
    if j == |obs| - 1 {
      UnnamedBefore(t, init, hash, s);
    } else {
      ApplyAllFirstName(t, init, hash, s, j);
    }
  }

  /** Before the first measurement with a nonzero first key byte, the slot's
      first key byte stays 0. */
  lemma {:induction false} UnnamedBefore(t: seq<Record>, obs: seq<Obs>, hash: seq<byte> -> nat, s: nat)
    requires |t| == STATION_COUNT && s < STATION_COUNT && t[s].key[0] == 0
    requires forall i :: 0 <= i < |obs| && SlotIndex(hash, obs[i].key) == s ==> obs[i].key[0] == 0
    ensures ApplyAll(t, obs, hash)[s].key[0] == 0
  {
    if obs != [] {
      UnnamedBefore(t, obs[..|obs| - 1], hash, s);
    }
  }

  /** Every named slot is named by a key that hashes to it. */
  predicate OwnKeys(t: seq<Record>, hash: seq<byte> -> nat)
  {
    forall s :: 0 <= s < |t| && t[s].key[0] != 0 ==> SlotIndex(hash, t[s].key) == s
  }

  lemma {:induction false} ApplyAllOwnKeys(t: seq<Record>, obs: seq<Obs>, hash: seq<byte> -> nat)
    requires |t| == STATION_COUNT && OwnKeys(t, hash)
    ensures OwnKeys(ApplyAll(t, obs, hash), hash)
  {
    if obs != [] {
      ApplyAllOwnKeys(t, obs[..|obs| - 1], hash);
    }
  }

  /** Hence two named slots never carry the same key. */
  lemma OwnKeysDistinct(t: seq<Record>, hash: seq<byte> -> nat, i: nat, j: nat)
    requires OwnKeys(t, hash) && i < j < |t| && t[i].key[0] != 0 && t[j].key[0] != 0
    ensures t[i].key != t[j].key
  {
  }

  /** compare_record_t: the order qsort is given, on the whole 100-byte key. */
  predicate KeyLe(a: Record, b: Record)
  {
    Order(a.key, b.key) <= 0
  }

  predicate Sorted(s: seq<Record>)
  {
    forall i, j :: 0 <= i < j < |s| ==> KeyLe(s[i], s[j])
  }

  /** x put in front of the first element of s that orders after it. */
  function Insert(x: Record, s: seq<Record>): (r: seq<Record>)
    ensures |r| == |s| + 1
  {
    if s == [] then [x]
    else if KeyLe(x, s[0]) then [x] + s
    else [s[0]] + Insert(x, s[1..])
  }

  /** A sort by KeyLe, standing for the C library's qsort. */
  function SortByKey(s: seq<Record>): (r: seq<Record>)
    ensures |r| == |s|
  {
    if s == [] then [] else Insert(s[0], SortByKey(s[1..]))
  }

  lemma {:induction false} InsertPermutes(x: Record, s: seq<Record>)
    ensures multiset(Insert(x, s)) == multiset(s) + multiset{x}
  {
    if s == [] {
      assert Insert(x, s) == [x];
    } else if KeyLe(x, s[0]) {
      assert Insert(x, s) == [x] + s;
      ConsMultiset(x, s);
    } else {
      InsertPermutes(x, s[1..]);
      assert Insert(x, s) == [s[0]] + Insert(x, s[1..]);
      ConsMultiset(s[0], Insert(x, s[1..]));
      ConsMultiset(s[0], s[1..]);
      assert [s[0]] + s[1..] == s;
    }
  }

  /** The multiset of a sequence with one more element in front. */
  lemma ConsMultiset<T>(a: T, s: seq<T>)
    ensures multiset([a] + s) == multiset(s) + multiset{a}
  {
    assert multiset([a] + s) == multiset([a]) + multiset(s);
  }

  lemma {:induction false} InsertSorted(x: Record, s: seq<Record>)
    requires Sorted(s)
    ensures Sorted(Insert(x, s))
  {
    if s != [] {
      if KeyLe(x, s[0]) {
        forall j | 1 < j < |s| + 1 ensures KeyLe(x, ([x] + s)[j]) {
          OrderTransitive(x.key, s[0].key, s[j - 1].key);
        }
      } else {
        OrderFlip(x.key, s[0].key);
        InsertSorted(x, s[1..]);
        InsertPermutes(x, s[1..]);
        var rest := Insert(x, s[1..]);
        forall j | 0 <= j < |rest| ensures KeyLe(s[0], rest[j]) {
          assert rest[j] in multiset(rest);
          assert rest[j] == x || rest[j] in s[1..];
        }
      }
    }
  }

  /** The sort gives a sorted permutation. */
  lemma {:induction false} SortByKeySorts(s: seq<Record>)
    ensures Sorted(SortByKey(s))
    ensures multiset(SortByKey(s)) == multiset(s)
  {
    if s != [] {
      SortByKeySorts(s[1..]);
      InsertSorted(s[0], SortByKey(s[1..]));
      InsertPermutes(s[0], SortByKey(s[1..]));
      assert s == [s[0]] + s[1..];
    }
  }

  /** qsort(records, STATION_COUNT, sizeof(record_t), compare_record_t). */
  method Qsort(records: array<Record>)
    modifies records
    ensures Sorted(records[..])
    ensures multiset(records[..]) == multiset(old(records[..]))
  {
    var sorted := SortByKey(records[..]);
    SortByKeySorts(records[..]);
    forall i | 0 <= i < records.Length {
      records[i] := sorted[i];
    }
    assert records[..] == sorted;
  }

  /** Round half away from zero of total / count, for count > 0. */
  function RoundDiv(total: int, count: nat): (r: int)
    requires count > 0
  {
    if total >= 0 then (2 * total + count) / (2 * count)
    else -((-2 * total + count) / (2 * count))
  }

  /** RoundDiv is the nearest integer to total / count, ties going away from
      zero. */
  lemma RoundDivNearest(total: int, count: nat)
    requires count > 0
    ensures var r := RoundDiv(total, count);
      && (total >= 0 ==> count * (2 * r - 1) <= 2 * total < count * (2 * r + 1))
      && (total < 0 ==> count * (2 * r - 1) < 2 * total <= count * (2 * r + 1))
  {
    var a := if total >= 0 then 2 * total + count else -2 * total + count;
    var q := a / (2 * count);
    Euclid(a, 2 * count);
    Scaled(count, q);
    Scaled(count, -q);
  }

  /** The quotient of a by d > 0 rounds down. */
  lemma Euclid(a: int, d: nat)
    requires d > 0
    ensures d * (a / d) <= a < d * (a / d) + d
  {
    assert a == d * (a / d) + a % d;
  }

  /** count * (2q ± 1) and 2count * q in terms of count * q. */
  lemma Scaled(count: nat, q: int)
    ensures (2 * count) * q == 2 * (count * q)
    ensures count * (2 * q - 1) == 2 * (count * q) - count
    ensures count * (2 * q + 1) == 2 * (count * q) + count
  {
  }

  /** One output line: the key as a C string, then min, mean and max in tenths.
      The mean is absent when the count has wrapped to 0. */
  datatype Line = Line(name: seq<byte>, min: int, mean: Option<int>, max: int)

  /** The key up to its first 0 byte. */
  function CString(key: Key): (r: seq<byte>)
  {
    match FindByte(key, 0, |key|, 0)
    case None => key
    case Some(z) => key[..z]
  }

  /** The name printed is a prefix of the key without 0 bytes, followed in the
      key by a 0 byte unless it is the whole key. */
  lemma CStringShape(key: Key)
    ensures |CString(key)| <= |key| && CString(key) == key[..|CString(key)|]
    ensures forall k :: 0 <= k < |CString(key)| ==> CString(key)[k] != 0
    ensures |CString(key)| < |key| ==> key[|CString(key)|] == 0
  {
    FindByteFirst(key, 0, |key|, 0);
  }

  function LineOf(r: Record): (l: Line)
  {
    Line(CString(r.key), r.min, if r.count == 0 then None else Some(RoundDiv(r.sum, r.count)), r.max)
  }

  /** The lines written for the table: one per record whose first key byte is
      not 0, in table order. */
  function Report(t: seq<Record>): (r: seq<Line>)
    ensures |r| <= |t|
  {
    if t == [] then []
    else Report(t[..|t| - 1]) + (if t[|t| - 1].key[0] != 0 then [LineOf(t[|t| - 1])] else [])
  }

  /** Report keeps the table's order: a report of two parts is the two
      reports. */
  lemma {:induction false} ReportAppend(a: seq<Record>, b: seq<Record>)
    ensures Report(a + b) == Report(a) + Report(b)
    decreases |b|
  {
    if b == [] {
      assert a + b == a;
    } else {
      var b' := b[..|b| - 1];
      assert (a + b)[..|a + b| - 1] == a + b';
      ReportAppend(a, b');
    }
  }

  /** A line is written exactly for each record whose first key byte is not 0. */
  lemma {:induction false} ReportLines(t: seq<Record>)
    ensures forall l :: l in Report(t) <==> exists r :: r in t && r.key[0] != 0 && l == LineOf(r)
  {
    if t != [] {
      var init := t[..|t| - 1];
      ReportLines(init);
      assert t == init + [t[|t| - 1]];
    }
  }

  /** The initial table writes nothing. */
  lemma {:induction false} ReportUnnamed(t: seq<Record>)
    requires forall s :: 0 <= s < |t| ==> t[s].key[0] == 0
    ensures Report(t) == []
  {
    if t != [] {
      ReportUnnamed(t[..|t| - 1]);
    }
  }

  /** main's output loop over all STATION_COUNT slots. */
  method Emit(records: array<Record>) returns (lines: seq<Line>)
    ensures lines == Report(records[..])
  {
    lines := [];
    for i := 0 to records.Length
      invariant lines == Report(records[..i])
    {
      assert records[..i + 1][..i] == records[..i];
      if records[i].key[0] != 0 {
        lines := lines + [LineOf(records[i])];
      }
    }
    assert records[..] == records[..records.Length];
  }
}

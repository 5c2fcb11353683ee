/** The set of points that the fast path has already forwarded (internal/sender/fastpath.go):
    partitioned by second, with packed entries and reference-counted series ids. */
module FastDedup {
  import opened SeriesKeys

  const SECOND: nat := 1_000_000_000
  const SHIFT: nat := 0x4000_0000
  const MAX_SERIES: nat := 0x4_0000_0000
  const TWO_64: nat := 0x1_0000_0000_0000_0000

  datatype Entry = Entry(series: string, ts: int)

  /** Division that truncates towards zero. */
  function TruncDiv(a: int, b: int): int
    requires b > 0
  {
    if a >= 0 then a / b else -((-a) / b)
  }

  /** `id << 30 | off`: the offset within a second fits into 30 bits. */
  function Packed(id: nat, off: nat): nat {
    id * SHIFT + off
  }

  /** The same in 64 bits for a point before 1970, whose offset is negative: its upper bits hide the id. */
  function PackedAt(id: nat, off: int): nat
    requires 0 < SECOND + off
  {
    if off >= 0 then Packed(id, off) else (TWO_64 + off) as nat
  }

  /** The bits behind the two functions above. */
  lemma PackedBits(id: bv64, off: bv64)
    ensures off < 0x4000_0000 ==> (id << 30) | off == (id << 30) + off
    ensures off >= 0xffff_ffff_c000_0000 ==> (id << 30) | off == off
  {
  }

  /** Packing keeps two series of the same second apart exactly if the offset is not negative. */
  lemma PackedApartIff(id: nat, id': nat, off: int)
    requires 0 < SECOND + off && off < SECOND && id != id'
    ensures PackedAt(id, off) != PackedAt(id', off) <==> off >= 0
  {
  }

  function IdOf(p: nat): nat {
    p / SHIFT
  }

  function OffOf(p: nat): nat {
    p % SHIFT
  }

  lemma PackUnpack(id: nat, off: nat)
    requires off < SECOND
    ensures IdOf(Packed(id, off)) == id && OffOf(Packed(id, off)) == off
  {
  }

  function SecOf(ts: int): int {
    TruncDiv(ts, SECOND)
  }

  ghost function EntryOf(idName: map<nat, string>, sec: nat, p: nat): Entry
    requires IdOf(p) in idName
  {
    Entry(idName[IdOf(p)], sec * SECOND + OffOf(p))
  }

  ghost function OfSeries(c: set<Entry>, key: string): set<Entry> {
    set e | e in c && e.series == key
  }

  /** Series names and ids are inverse to each other, and ids below `nextID` are used. */
  ghost predicate Inverse(series: map<string, nat>, idName: map<nat, string>, nextID: nat) {
    && (forall k | k in series :: series[k] in idName && idName[series[k]] == k && series[k] < nextID)
    && (forall id | id in idName :: idName[id] in series && series[idName[id]] == id)
  }

  /** Every id counts the entries of its series; an id without entries is forgotten. */
  ghost predicate Counted(idName: map<nat, string>, idRefs: map<nat, nat>, c: set<Entry>) {
    && idRefs.Keys == idName.Keys
    && (forall id | id in idName :: idRefs[id] == |OfSeries(c, idName[id])| > 0)
  }

  /** Every entry is stored, packed, in the partition of its second. */
  ghost predicate Stored(parts: map<nat, set<nat>>, series: map<string, nat>, c: set<Entry>) {
    forall e | e in c ::
      && e.series in series && e.ts >= 0 && e.ts / SECOND in parts
      && Packed(series[e.series], e.ts % SECOND) in parts[e.ts / SECOND]
  }

  /** Everything stored is an entry. */
  ghost predicate Exact(parts: map<nat, set<nat>>, idName: map<nat, string>, c: set<Entry>) {
    forall sec, p | sec in parts && p in parts[sec] ::
      IdOf(p) in idName && OffOf(p) < SECOND && EntryOf(idName, sec, p) in c
  }

  ghost predicate Represents(
    parts: map<nat, set<nat>>, series: map<string, nat>, idName: map<nat, string>, idRefs: map<nat, nat>, nextID: nat,
    c: set<Entry>)
  {
    && Inverse(series, idName, nextID) && nextID <= MAX_SERIES
    && Counted(idName, idRefs, c) && Stored(parts, series, c) && Exact(parts, idName, c)
  }

  // ---------------------------------------------------------------- dropping one entry

  lemma CountWithout(c: set<Entry>, e: Entry, key: string)
    requires e in c
    ensures |OfSeries(c - {e}, key)| == |OfSeries(c, key)| - if e.series == key then 1 else 0
  {
    if e.series == key {
      assert OfSeries(c - {e}, key) == OfSeries(c, key) - {e};
    } else {
      assert OfSeries(c - {e}, key) == OfSeries(c, key);
    }
  }

  lemma CountWith(c: set<Entry>, e: Entry, key: string)
    requires e !in c
    ensures |OfSeries(c + {e}, key)| == |OfSeries(c, key)| + if e.series == key then 1 else 0
  {
    if e.series == key {
      assert OfSeries(c + {e}, key) == OfSeries(c, key) + {e};
    } else {
      assert OfSeries(c + {e}, key) == OfSeries(c, key);
    }
  }

  /** Only one entry is stored as `p` in partition `sec`. */
  lemma StoredOnce(
    parts: map<nat, set<nat>>, series: map<string, nat>, idName: map<nat, string>, nextID: nat, c: set<Entry>,
    sec: nat, p: nat, e: Entry)
    requires Inverse(series, idName, nextID) && Stored(parts, series, c) && e in c && IdOf(p) in idName
    requires e.ts / SECOND == sec && Packed(series[e.series], e.ts % SECOND) == p
    ensures e == EntryOf(idName, sec, p)
  {
    PackUnpack(series[e.series], e.ts % SECOND);
  }

  lemma DropStored(
    parts: map<nat, set<nat>>, series: map<string, nat>, idName: map<nat, string>, idRefs: map<nat, nat>, nextID: nat,
    c: set<Entry>, sec: nat, p: nat)
    requires Represents(parts, series, idName, idRefs, nextID, c) && sec in parts && p in parts[sec]
    ensures IdOf(p) in idName && EntryOf(idName, sec, p) in c
    ensures Stored(parts[sec := parts[sec] - {p}], series, c - {EntryOf(idName, sec, p)})
    ensures Exact(parts[sec := parts[sec] - {p}], idName, c - {EntryOf(idName, sec, p)})
  {
    var c', parts' := c - {EntryOf(idName, sec, p)}, parts[sec := parts[sec] - {p}];
    forall e | e in c'
      ensures Packed(series[e.series], e.ts % SECOND) in parts'[e.ts / SECOND]
    {
      if e.ts / SECOND == sec && Packed(series[e.series], e.ts % SECOND) == p {
        StoredOnce(parts, series, idName, nextID, c, sec, p, e);
      }
    }
    forall s, q | s in parts' && q in parts'[s]
      ensures IdOf(q) in idName && EntryOf(idName, s, q) in c'
    {
      if EntryOf(idName, s, q) == EntryOf(idName, sec, p) {
        SameEntry(series, idName, nextID, s, q, sec, p);
      }
    }
  }

  lemma SameEntry(series: map<string, nat>, idName: map<nat, string>, nextID: nat, s: nat, q: nat, sec: nat, p: nat)
    requires Inverse(series, idName, nextID) && IdOf(p) in idName && IdOf(q) in idName
    requires OffOf(p) < SECOND && OffOf(q) < SECOND && EntryOf(idName, s, q) == EntryOf(idName, sec, p)
    ensures s == sec && q == p
  {
    assert IdOf(q) == IdOf(p);
    assert q == IdOf(q) * SHIFT + OffOf(q) && p == IdOf(p) * SHIFT + OffOf(p);
  }

  /** Dropping an entry that is not the last one of its series. */
  lemma DropOne(
    parts: map<nat, set<nat>>, series: map<string, nat>, idName: map<nat, string>, idRefs: map<nat, nat>, nextID: nat,
    c: set<Entry>, sec: nat, p: nat)
    requires Represents(parts, series, idName, idRefs, nextID, c) && sec in parts && p in parts[sec]
    ensures IdOf(p) in idRefs && IdOf(p) in idName
    ensures idRefs[IdOf(p)] > 1 ==>
              Represents(parts[sec := parts[sec] - {p}], series, idName, idRefs[IdOf(p) := idRefs[IdOf(p)] - 1], nextID,
                         c - {EntryOf(idName, sec, p)})
  {
    DropStored(parts, series, idName, idRefs, nextID, c, sec, p);
    hide Stored, Exact;
    var e := EntryOf(idName, sec, p);
    forall id | id in idName
      ensures |OfSeries(c - {e}, idName[id])| == |OfSeries(c, idName[id])| - if id == IdOf(p) then 1 else 0
    {
      CountWithout(c, e, idName[id]);
    }
  }

  /** Dropping the last entry of a series forgets the series. */
  lemma DropLast(
    parts: map<nat, set<nat>>, series: map<string, nat>, idName: map<nat, string>, idRefs: map<nat, nat>, nextID: nat,
    c: set<Entry>, sec: nat, p: nat)
    requires Represents(parts, series, idName, idRefs, nextID, c) && sec in parts && p in parts[sec]
    requires IdOf(p) in idRefs && idRefs[IdOf(p)] == 1
    ensures IdOf(p) in idName && idName[IdOf(p)] in series
    ensures Represents(parts[sec := parts[sec] - {p}], series - {idName[IdOf(p)]}, idName - {IdOf(p)},
                       idRefs - {IdOf(p)},
                       nextID, c - {EntryOf(idName, sec, p)})
  {
    DropStored(parts, series, idName, idRefs, nextID, c, sec, p);
    var e, id, name := EntryOf(idName, sec, p), IdOf(p), idName[IdOf(p)];
    var parts', c' := parts[sec := parts[sec] - {p}], c - {e};
    CountWithout(c, e, name);
    assert OfSeries(c', name) == {};
    Forgotten(parts', series, idName, nextID, c', id);
    hide Stored, Exact;
    forall i | i in idName - {id}
      ensures |OfSeries(c', idName[i])| == |OfSeries(c, idName[i])|
    {
      CountWithout(c, e, idName[i]);
    }
  }

  /** A series without entries is not needed to find any. */
  lemma Forgotten(
    parts: map<nat, set<nat>>, series: map<string, nat>, idName: map<nat, string>, nextID: nat, c: set<Entry>, id: nat)
    requires Stored(parts, series, c) && Exact(parts, idName, c) && id in idName && OfSeries(c, idName[id]) == {}
    requires Inverse(series, idName, nextID)
    ensures Inverse(series - {idName[id]}, idName - {id}, nextID)
    ensures Stored(parts, series - {idName[id]}, c) && Exact(parts, idName - {id}, c)
  {
    forall e | e in c
      ensures e.series != idName[id]
    {
      assert e in OfSeries(c, e.series);
    }
    forall s, q | s in parts && q in parts[s]
      ensures IdOf(q) != id
    {
      assert EntryOf(idName, s, q) in c;
    }
  }

  /** The entries whose second is not before the cut. */
  ghost function Kept(c: set<Entry>, cutNs: int): set<Entry> {
    set e | e in c && SecOf(e.ts) >= TruncDiv(cutNs, SECOND)
  }

  /** No entry at the cut or behind it is forgotten, and every other one once it is a second older than the cut,
      or two where seconds are rounded towards zero. */
  lemma KeptBounds(c: set<Entry>, cutNs: int, e: Entry)
    requires e in c
    ensures e.ts >= cutNs ==> e in Kept(c, cutNs)
    ensures e.ts <= cutNs - (if cutNs >= 0 > e.ts then 2 else 1) * SECOND ==> e !in Kept(c, cutNs)
  {
  }

  /** The set, and how many ids were ever used, after registering an entry. A series without a live entry
      needs a new id. */
  ghost function Registered(c: set<Entry>, used: nat, e: Entry, cutNs: int): (set<Entry>, nat) {
    var kept := Kept(c, cutNs);
    if OfSeries(kept, e.series) != {} then (kept + {e}, used)
    else if used >= MAX_SERIES then (kept, used)
    else (kept + {e}, used + 1)
  }

  class Dedup {
    var series: map<string, nat>
    var idName: map<nat, string>
    var idRefs: map<nat, nat>
    var nextID: nat
    var parts: map<nat, set<nat>>
    const retention: int
    var cursorNs: int

    /** The points this set stands for. */
    ghost var contents: set<Entry>

    ghost predicate Valid()
      reads this
    {
      Represents(parts, series, idName, idRefs, nextID, contents)
    }

    constructor (window: int)
      ensures Valid() && contents == {} && nextID == 0
      ensures retention == if window <= 0 then 15 * SECOND else window
    {
      series, idName, idRefs, nextID, parts, cursorNs := map[], map[], map[], 0, map[], 0;
      retention := if window <= 0 then 15 * SECOND else window;
      contents := {};
    }

    /** A restarted process starts with an empty set. */
    method Forget()
      modifies this
      ensures Valid() && contents == {}
    {
      series, idName, idRefs, nextID, parts, cursorNs := map[], map[], map[], 0, map[], 0;
      contents := {};
    }

    /** Whether the fast path has forwarded the point; never wrong in either direction, unless the point
        lies before 1970 and there are entries in the second around it. */
    method Contains(seriesKey: string, ts: int) returns (hit: bool)
      requires Valid()
      ensures ts >= 0 || (forall e | e in contents :: e.ts >= SECOND) ==> (hit <==> Entry(seriesKey, ts) in contents)
    {
      if seriesKey !in series {
        return false;
      }
      var id := series[seriesKey];
      var sec := TruncDiv(ts, SECOND);
      if sec !in parts {
        return false;
      }
      var p := PackedAt(id, ts - sec * SECOND);
      hit := p in parts[sec];
      if ts >= 0 {
        IsStored(parts, series, idName, nextID, contents, seriesKey, ts);
      } else if hit {
        assert EntryOf(idName, sec, p) in contents;
      }
    }

    /** Forgets everything in seconds before the cut, and the series that are left without entries. */
    method Evict(cutNs: int)
      requires Valid()
      modifies this`series, this`idName, this`idRefs, this`parts, this`contents
      ensures Valid()
      ensures contents == Kept(old(contents), cutNs)
    {
      hide Represents;
      var cut := TruncDiv(cutNs, SECOND);
      var rest := parts.Keys;
      SecondsOf();
      while rest != {}
        invariant Valid() && rest <= parts.Keys
        invariant forall s | s in parts && s !in rest :: s >= cut
        invariant contents <= old(contents)
        invariant forall e | e in old(contents) :: SecOf(e.ts) >= cut || SecOf(e.ts) in rest ==> e in contents
        decreases rest
      {
        var sec :| sec in rest;
        rest := rest - {sec};
        if sec < cut {
          DropPartition(sec);
        }
      }
      SecondsOf();
    }

    lemma SecondsOf()
      requires Valid()
      ensures forall e | e in contents :: SecOf(e.ts) in parts
    {
    }

    method DropPartition(sec: nat)
      requires Valid() && sec in parts
      modifies this`series, this`idName, this`idRefs, this`parts, this`contents
      ensures Valid() && parts == old(parts) - {sec}
      ensures contents == set e | e in old(contents) && SecOf(e.ts) != sec
    {
      hide Represents;
      var part := parts[sec];
      assert parts[sec := part] == parts;
      while part != {}
        invariant Represents(parts[sec := part], series, idName, idRefs, nextID, contents)
        invariant parts == old(parts) && contents <= old(contents)
        invariant forall e | e in old(contents) && SecOf(e.ts) != sec :: e in contents
        decreases part
      {
        var packed :| packed in part;
        var id := IdOf(packed);
        ghost var current := parts[sec := part];
        DropOne(current, series, idName, idRefs, nextID, contents, sec, packed);
        Located(current, series, idName, idRefs, nextID, contents, sec, packed);
        ghost var was := contents;
        contents := contents - {EntryOf(idName, sec, packed)};
        if idRefs[id] - 1 > 0 {
          idRefs := idRefs[id := idRefs[id] - 1];
        } else {
          DropLast(current, series, idName, idRefs, nextID, was, sec, packed);
          if id in idName {
            series := series - {idName[id]};
            idName := idName - {id};
          }
          idRefs := idRefs - {id};
        }
        part := part - {packed};
        assert current[sec := part] == parts[sec := part];
      }
      WithoutEmpty(parts[sec := {}], series, idName, idRefs, nextID, contents, sec);
      assert parts[sec := {}] - {sec} == parts - {sec};
      parts := parts - {sec};
    }

    /** Called by the poller with the start of its window: earlier seconds are never queried again. */
    method SetCursor(cursor: int)
      requires Valid()
      modifies this`series, this`idName, this`idRefs, this`parts, this`contents, this`cursorNs
      ensures Valid() && contents == Kept(old(contents), cursor - retention) && cursorNs == cursor
    {
      cursorNs := cursor;
      Evict(cursor - retention);
    }

    /** Registers a forwarded point; `now` is the clock. A new series is refused once all ids are used,
        which only means that its points are forwarded twice. */
    method Add(seriesKey: string, ts: int, now: int)
      requires Valid() && ts >= 0
      modifies this`series, this`idName, this`idRefs, this`parts, this`contents, this`nextID
      ensures Valid()
      ensures (contents, nextID) == Registered(old(contents), old(nextID), Entry(seriesKey, ts), now - retention)
    {
      hide Represents, Packed, Kept;
      Evict(now - retention);
      SeriesAreLive(seriesKey);
      ghost var e := Entry(seriesKey, ts);
      var sec: nat := ts / SECOND;
      var part := if sec in parts then parts[sec] else {};
      var id: nat;
      if seriesKey !in series {
        if nextID >= MAX_SERIES {
          return;
        }
        InsertNew(parts, series, idName, idRefs, nextID, contents, seriesKey, ts);
        id := nextID;
        nextID := nextID + 1;
        series := series[seriesKey := id];
        idName := idName[id := seriesKey];
      } else {
        id := series[seriesKey];
        InsertOld(parts, series, idName, idRefs, nextID, contents, seriesKey, ts);
      }
      var packed := Packed(id, ts - sec * SECOND);
      parts := parts[sec := part + {packed}];
      if packed !in part {
        idRefs := idRefs[id := (if id in idRefs then idRefs[id] else 0) + 1];
      }
      contents := contents + {e};
    }

    /** The tables keep exactly the series that have an entry. */
    lemma SeriesAreLive(key: string)
      requires Valid()
      ensures (key in series <==> OfSeries(contents, key) != {}) && nextID <= MAX_SERIES
    {
      if OfSeries(contents, key) != {} {
        var e :| e in OfSeries(contents, key);
      }
    }
  }

  ghost function EntryFor(p: Point): Entry {
    Entry(SeriesKey(p.measurement, p.tags), p.ts)
  }

  ghost function With(parts: map<nat, set<nat>>, sec: nat, p: nat): map<nat, set<nat>> {
    parts[sec := (if sec in parts then parts[sec] else {}) + {p}]
  }

  lemma InsertOld(
    parts: map<nat, set<nat>>, series: map<string, nat>, idName: map<nat, string>, idRefs: map<nat, nat>, nextID: nat,
    c: set<Entry>, key: string, ts: int)
    requires Represents(parts, series, idName, idRefs, nextID, c) && ts >= 0 && key in series
    ensures var id, sec, p := series[key], ts / SECOND, Packed(series[key], ts % SECOND);
            && id in idRefs
            && ((sec in parts && p in parts[sec]) <==> Entry(key, ts) in c)
            && Represents(With(parts, sec, p), series, idName,
                          if Entry(key, ts) in c then idRefs else idRefs[id := idRefs[id] + 1], nextID,
                          c + {Entry(key, ts)})
  {
    var e, sec, p := Entry(key, ts), ts / SECOND, Packed(series[key], ts % SECOND);
    PackUnpack(series[key], ts % SECOND);
    StoredWith(parts, series, idName, nextID, c, key, ts);
    IsStored(parts, series, idName, nextID, c, key, ts);
    hide Packed;
    if e in c {
      assert c + {e} == c && parts[sec] + {p} == parts[sec];
      assert With(parts, sec, p) == parts;
    } else {
      hide Stored, Exact;
      forall id | id in idName
        ensures |OfSeries(c + {e}, idName[id])| == |OfSeries(c, idName[id])| + if id == series[key] then 1 else 0
      {
        CountWith(c, e, idName[id]);
      }
    }
  }

  /** A point is in the set exactly if its packed entry is in its partition. */
  lemma IsStored(
    parts: map<nat, set<nat>>, series: map<string, nat>, idName: map<nat, string>, nextID: nat,
    c: set<Entry>, key: string, ts: int)
    requires Inverse(series, idName, nextID) && Stored(parts, series, c) && Exact(parts, idName, c)
    requires ts >= 0 && key in series
    ensures ts / SECOND in parts && Packed(series[key], ts % SECOND) in parts[ts / SECOND] <==> Entry(key, ts) in c
  {
    PackUnpack(series[key], ts % SECOND);
    assert ts == ts / SECOND * SECOND + ts % SECOND;
  }

  lemma StoredWith(
    parts: map<nat, set<nat>>, series: map<string, nat>, idName: map<nat, string>, nextID: nat,
    c: set<Entry>, key: string, ts: int)
    requires Inverse(series, idName, nextID) && Stored(parts, series, c) && Exact(parts, idName, c)
    requires ts >= 0 && key in series
    ensures Stored(With(parts, ts / SECOND, Packed(series[key], ts % SECOND)), series, c + {Entry(key, ts)})
    ensures Exact(With(parts, ts / SECOND, Packed(series[key], ts % SECOND)), idName, c + {Entry(key, ts)})
  {
    PackUnpack(series[key], ts % SECOND);
    assert ts == ts / SECOND * SECOND + ts % SECOND;
  }

  /** A fresh id for a new series changes nothing for the others. */
  lemma NewName(
    parts: map<nat, set<nat>>, series: map<string, nat>, idName: map<nat, string>, idRefs: map<nat, nat>, nextID: nat,
    c: set<Entry>, key: string)
    requires Represents(parts, series, idName, idRefs, nextID, c) && key !in series
    ensures nextID !in idName
    ensures Inverse(series[key := nextID], idName[nextID := key], nextID + 1)
    ensures Stored(parts, series[key := nextID], c) && Exact(parts, idName[nextID := key], c)
    ensures OfSeries(c, key) == {}
  {
  }

  lemma InsertNew(
    parts: map<nat, set<nat>>, series: map<string, nat>, idName: map<nat, string>, idRefs: map<nat, nat>, nextID: nat,
    c: set<Entry>, key: string, ts: int)
    requires Represents(parts, series, idName, idRefs, nextID, c) && ts >= 0 && key !in series && nextID < MAX_SERIES
    ensures var sec, p := ts / SECOND, Packed(nextID, ts % SECOND);
            && nextID !in idRefs
            && !(sec in parts && p in parts[sec])
            && Represents(With(parts, sec, p), series[key := nextID], idName[nextID := key], idRefs[nextID := 1],
                          nextID + 1,
                          c + {Entry(key, ts)})
  {
    var e, sec, p := Entry(key, ts), ts / SECOND, Packed(nextID, ts % SECOND);
    PackUnpack(nextID, ts % SECOND);
    var series', idName' := series[key := nextID], idName[nextID := key];
    NewName(parts, series, idName, idRefs, nextID, c, key);
    IsStored(parts, series', idName', nextID + 1, c, key, ts);
    hide Packed, Stored, Exact;
    StoredWith(parts, series', idName', nextID + 1, c, key, ts);
    forall id | id in idName'
      ensures |OfSeries(c + {e}, idName'[id])| == |OfSeries(c, idName'[id])| + if id == nextID then 1 else 0
    {
      CountWith(c, e, idName'[id]);
    }
  }

  lemma Located(
    parts: map<nat, set<nat>>, series: map<string, nat>, idName: map<nat, string>, idRefs: map<nat, nat>, nextID: nat,
    c: set<Entry>, sec: nat, p: nat)
    requires Represents(parts, series, idName, idRefs, nextID, c) && sec in parts && p in parts[sec]
    ensures IdOf(p) in idName && IdOf(p) in idRefs && idRefs[IdOf(p)] >= 1
    ensures EntryOf(idName, sec, p) in c && SecOf(EntryOf(idName, sec, p).ts) == sec
  {
  }

  lemma WithoutEmpty(
    parts: map<nat, set<nat>>, series: map<string, nat>, idName: map<nat, string>, idRefs: map<nat, nat>, nextID: nat,
    c: set<Entry>, sec: nat)
    requires Represents(parts, series, idName, idRefs, nextID, c) && sec in parts && parts[sec] == {}
    ensures Represents(parts - {sec}, series, idName, idRefs, nextID, c)
    ensures forall e | e in c :: SecOf(e.ts) != sec
  {
  }
}

/** The registry's contents as a value: the JavaScript `Map` from key to record, with the
    insertion order that `Map.prototype.values` follows, and the snapshot and restore
    functions of the backup file. */
module Tables {
  import opened Wrappers
  import opened Json
  import opened Mocks

  /** The entries of the registry and the order in which their keys were first inserted. */
  datatype Table = Table(entries: map<string, Mock>, order: seq<string>)

  const Empty: Table := Table(map[], [])

  ghost predicate Distinct(s: seq<string>)
  {
    forall i, j :: 0 <= i < j < |s| ==> s[i] != s[j]
  }

  /** A record is stored under the key its own configuration yields, and its cursor is valid. */
  ghost predicate WellFormed(k: string, m: Mock)
  {
    m.config.verb.Some? && KeyOf(m.config) == k && CursorOk(m)
  }

  /** The order lists every key once, and every record is well formed. */
  ghost predicate ValidTable(t: Table)
  {
    && Distinct(t.order)
    && (forall k :: k in t.entries <==> k in t.order)
    && (forall k :: k in t.entries ==> WellFormed(k, t.entries[k]))
  }

  // ---------------------------------------------------------------------------------
  // Insert and delete

  /** `Map.prototype.set`: a new key goes to the end of the order, an existing key keeps
      its place and gets the new record. */
  function Put(t: Table, k: string, m: Mock): (r: Table)
    ensures r.entries.Keys == t.entries.Keys + {k} && r.entries[k] == m
    ensures forall j :: j in t.entries && j != k ==> r.entries[j] == t.entries[j]
    ensures k in t.entries ==> r.order == t.order
    ensures k !in t.entries ==> r.order == t.order + [k]
  {
    Table(t.entries[k := m], if k in t.entries then t.order else t.order + [k])
  }

  lemma PutValid(t: Table, k: string, m: Mock)
    requires ValidTable(t) && WellFormed(k, m)
    ensures ValidTable(Put(t, k, m))
  {
  }

  /** One dispatch keeps the registry invariant. */
  lemma AdvanceValid(t: Table, k: string, now: string)
    requires ValidTable(t) && k in t.entries
    ensures CursorOk(t.entries[k])
    ensures ValidTable(Table(t.entries[k := Advance(t.entries[k], now)], t.order))
  {
    assert WellFormed(k, t.entries[k]);
    PutValid(t, k, Advance(t.entries[k], now));
  }

  /** The order with one key taken out. */
  function Without(s: seq<string>, k: string): (r: seq<string>)
    ensures |r| <= |s|
    ensures k !in s ==> r == s
  {
    if s == [] then []
    else if s[0] == k then Without(s[1..], k)
    else [s[0]] + Without(s[1..], k)
  }

  /** Exactly the deleted key leaves the order, and a duplicate-free order stays so. */
  lemma {:induction false} WithoutMembers(s: seq<string>, k: string)
    ensures forall x :: x in Without(s, k) <==> x in s && x != k
    ensures Distinct(s) ==> Distinct(Without(s, k))
  {
    if s != [] {
      var tail := s[1..];
      WithoutMembers(tail, k);
      assert forall x :: x in s <==> x == s[0] || x in tail;
      if s[0] != k && Distinct(s) {
        var r := Without(tail, k);
        assert Distinct(tail);
        assert s[0] !in r by {
          assert s[0] !in tail;
        }
        assert Without(s, k) == [s[0]] + r;
        assert forall i :: 1 <= i < |[s[0]] + r| ==> ([s[0]] + r)[i] == r[i - 1];
      }
    }
  }

  /** Taking out a key that occurs only at position `p` leaves the keys before and after it
      in their order. */
  lemma {:induction false} WithoutOnly(s: seq<string>, p: nat)
    requires p < |s| && s[p] !in s[..p] && s[p] !in s[p + 1..]
    ensures Without(s, s[p]) == s[..p] + s[p + 1..]
  {
    var k, tail := s[p], s[1..];
    if p == 0 {
      assert tail == s[p + 1..];
      assert s[..0] + tail == tail;
    } else {
      assert s[0] != k by {
        assert s[0] == s[..p][0];
      }
      assert tail[p - 1] == k;
      assert tail[..p - 1] == s[1..p] by {
        assert s[..p] == [s[0]] + s[1..p];
      }
      assert tail[p..] == s[p + 1..];
      WithoutOnly(tail, p - 1);
      assert [s[0]] + (s[1..p] + s[p + 1..]) == ([s[0]] + s[1..p]) + s[p + 1..];
      assert s[..p] == [s[0]] + s[1..p];
    }
  }

  /** Taking out a key that sits at position `p` of a duplicate-free order leaves the keys
      before and after it in their order. */
  lemma WithoutAt(s: seq<string>, p: nat)
    requires Distinct(s) && p < |s|
    ensures Without(s, s[p]) == s[..p] + s[p + 1..]
  {
    assert s[p] !in s[..p] by {
      forall j | 0 <= j < p ensures s[..p][j] != s[p] {
        assert s[..p][j] == s[j];
      }
    }
    var after := s[p + 1..];
    assert s[p] !in after by {
      forall j | 0 <= j < |after| ensures after[j] != s[p] {
        assert after[j] == s[p + 1 + j];
      }
    }
    WithoutOnly(s, p);
  }

  /** `Map.prototype.delete`: a silent no-op when the key is absent. */
  function Drop(t: Table, k: string): (r: Table)
    ensures r.entries.Keys == t.entries.Keys - {k}
    ensures forall j :: j in r.entries ==> r.entries[j] == t.entries[j]
    ensures r.order == Without(t.order, k)
  {
    Table(t.entries - {k}, Without(t.order, k))
  }

  lemma DropValid(t: Table, k: string)
    requires ValidTable(t)
    ensures ValidTable(Drop(t, k))
    ensures k !in Drop(t, k).entries
    ensures k !in t.entries ==> Drop(t, k) == t
  {
    WithoutMembers(t.order, k);
    if k !in t.entries {
      assert k !in t.order;
      assert t.entries - {k} == t.entries;
    }
  }

  // ---------------------------------------------------------------------------------
  // Backup

  /** `Array.from(mockRegistry.values())`: the records in insertion order, each carrying
      the configuration its key was built from. */
  function Snapshot(t: Table): (snap: seq<Mock>)
    requires ValidTable(t)
    ensures |snap| == |t.order|
    ensures forall i :: 0 <= i < |snap| ==> t.order[i] in t.entries && snap[i] == t.entries[t.order[i]]
    ensures forall i :: 0 <= i < |snap| ==> snap[i].config.verb.Some? && KeyOf(snap[i].config) == t.order[i]
  {
    seq(|t.order|, i requires 0 <= i < |t.order| => t.entries[t.order[i]])
  }

  /** How the reload of a backup ends: all records stored, or stopped by a record whose
      method is missing or whose CSV file does not parse (which ends the start-up). */
  datatype Restored = Complete(table: Table) | Aborted(table: Table)

  ghost predicate AllInitial(t: Table, loader: string -> CsvLoad)
  {
    forall k :: k in t.entries ==> Initial(t.entries[k], loader)
  }

  ghost predicate AllAdmissible(t: Table, loader: string -> CsvLoad)
  {
    forall k :: k in t.entries ==> Admissible(t.entries[k].config, loader)
  }

  /** The reload loop: every record of the backup is stored afresh under its key, in order. */
  function Restore(t: Table, snap: seq<Mock>, loader: string -> CsvLoad): (r: Restored)
    ensures t.entries.Keys <= r.table.entries.Keys
    ensures |t.order| <= |r.table.order| && r.table.order[..|t.order|] == t.order
    ensures snap == [] ==> r == Complete(t)
    decreases |snap|
  {
    if snap == [] then Complete(t)
    else if !Admissible(snap[0].config, loader) then Aborted(t)
    else
      var c := snap[0].config;
      Restore(Put(t, KeyOf(c), Stored(c, loader)), snap[1..], loader)
  }

  /** Reloading keeps the registry invariant, whatever the backup holds. */
  lemma {:induction false} RestoreValid(t: Table, snap: seq<Mock>, loader: string -> CsvLoad)
    requires ValidTable(t)
    ensures ValidTable(Restore(t, snap, loader).table)
    decreases |snap|
  {
    if snap != [] && Admissible(snap[0].config, loader) {
      var c := snap[0].config;
      PutValid(t, KeyOf(c), Stored(c, loader));
      RestoreValid(Put(t, KeyOf(c), Stored(c, loader)), snap[1..], loader);
    }
  }

  /** Every record the reload stores has its counters reset and its rows from the loader,
      whatever counters and rows the backup carried. */
  lemma {:induction false} RestoreInitial(t: Table, snap: seq<Mock>, loader: string -> CsvLoad)
    requires AllInitial(t, loader)
    ensures AllInitial(Restore(t, snap, loader).table, loader)
    decreases |snap|
  {
    if snap != [] && Admissible(snap[0].config, loader) {
      var c := snap[0].config;
      RestoreInitial(Put(t, KeyOf(c), Stored(c, loader)), snap[1..], loader);
    }
  }

  /** The reload stores every record exactly when each of them is admissible. */
  lemma {:induction false} RestoreComplete(t: Table, snap: seq<Mock>, loader: string -> CsvLoad)
    ensures Restore(t, snap, loader).Complete? <==> forall i :: 0 <= i < |snap| ==> Admissible(snap[i].config, loader)
    decreases |snap|
  {
    if snap != [] && Admissible(snap[0].config, loader) {
      var c := snap[0].config;
      RestoreComplete(Put(t, KeyOf(c), Stored(c, loader)), snap[1..], loader);
      assert forall i :: 1 <= i < |snap| ==> snap[i] == snap[1..][i - 1];
    }
  }

  /** A record later in the backup overwrites an earlier one with the same key: appending a
      record to a backup that reloads completely stores it last, under its key. */
  lemma {:induction false} RestoreAppend(t: Table, snap: seq<Mock>, m: Mock, loader: string -> CsvLoad)
    requires Restore(t, snap, loader).Complete?
    ensures Admissible(m.config, loader) ==>
      Restore(t, snap + [m], loader)
        == Complete(Put(Restore(t, snap, loader).table, KeyOf(m.config), Stored(m.config, loader)))
    ensures Admissible(m.config, loader) ==>
      Restore(t, snap + [m], loader).table.entries[KeyOf(m.config)] == Stored(m.config, loader)
    ensures !Admissible(m.config, loader) ==> Restore(t, snap + [m], loader) == Aborted(Restore(t, snap, loader).table)
    decreases |snap|
  {
    if snap == [] {
      assert [m][1..] == [];
    } else {
      var c := snap[0].config;
      assert (snap + [m])[0] == snap[0];
      assert (snap + [m])[1..] == snap[1..] + [m];
      RestoreAppend(Put(t, KeyOf(c), Stored(c, loader)), snap[1..], m, loader);
    }
  }

  /** Reloading a backup in two parts is reloading the first part and, when that part
      completes, going on with the second from where it left off; an abort in the first part
      ends the reload there. */
  lemma {:induction false} RestoreConcat(t: Table, a: seq<Mock>, b: seq<Mock>, loader: string -> CsvLoad)
    ensures Restore(t, a + b, loader)
         == if Restore(t, a, loader).Complete? then Restore(Restore(t, a, loader).table, b, loader)
            else Restore(t, a, loader)
    decreases |a|
  {
    if a == [] {
      assert a + b == b;
    } else {
      assert (a + b)[0] == a[0];
      assert (a + b)[1..] == a[1..] + b;
      if Admissible(a[0].config, loader) {
        var c := a[0].config;
        RestoreConcat(Put(t, KeyOf(c), Stored(c, loader)), a[1..], b, loader);
      }
    }
  }

  /** The reload reads only the configurations of the backup: two backups that differ only
      in their rows and counters restore to the same registry. */
  lemma {:induction false} RestoreReadsConfigs(t: Table, s1: seq<Mock>, s2: seq<Mock>, loader: string -> CsvLoad)
    requires |s1| == |s2|
    requires forall i :: 0 <= i < |s1| ==> s1[i].config == s2[i].config
    ensures Restore(t, s1, loader) == Restore(t, s2, loader)
    decreases |s1|
  {
    if s1 != [] && Admissible(s1[0].config, loader) {
      var c := s1[0].config;
      RestoreReadsConfigs(Put(t, KeyOf(c), Stored(c, loader)), s1[1..], s2[1..], loader);
    }
  }

  /** The registry after reloading the first `i` records of the backup of `t`. */
  function Prefix(t: Table, loader: string -> CsvLoad, i: nat): Table
    requires AllAdmissible(t, loader) && i <= |t.order|
  {
    Table(map k | k in t.order[..i] && k in t.entries :: Stored(t.entries[k].config, loader), t.order[..i])
  }

  /** Storing the next record of the backup extends the prefix by one key. */
  lemma PrefixStep(t: Table, loader: string -> CsvLoad, i: nat)
    requires Distinct(t.order) && (forall k :: k in t.order ==> k in t.entries)
    requires AllAdmissible(t, loader) && i < |t.order|
    ensures t.order[i] in t.entries
    ensures Put(Prefix(t, loader, i), t.order[i], Stored(t.entries[t.order[i]].config, loader))
            == Prefix(t, loader, i + 1)
  {
    var k := t.order[i];
    assert t.order[..i + 1] == t.order[..i] + [k];
    assert k !in t.order[..i];
    var p, q := Prefix(t, loader, i), Prefix(t, loader, i + 1);
    assert k !in p.entries;
    assert q.order == p.order + [k];
    assert q.entries.Keys == p.entries.Keys + {k};
  }

  lemma {:induction false} RestoreSuffix(t: Table, loader: string -> CsvLoad, i: nat)
    requires ValidTable(t) && AllAdmissible(t, loader) && i <= |t.order|
    ensures Restore(Prefix(t, loader, i), Snapshot(t)[i..], loader) == Complete(Prefix(t, loader, |t.order|))
    decreases |t.order| - i
  {
    var snap := Snapshot(t);
    if i == |t.order| {
      assert snap[i..] == [];
    } else {
      var rest := snap[i..];
      var m := rest[0];
      assert m == t.entries[t.order[i]] && KeyOf(m.config) == t.order[i];
      PrefixStep(t, loader, i);
      assert rest[1..] == snap[i + 1..];
      RestoreSuffix(t, loader, i + 1);
    }
  }

  /** The prefix of the whole order holds every key, in order, with its record stored afresh. */
  lemma PrefixAll(t: Table, loader: string -> CsvLoad)
    requires ValidTable(t) && AllAdmissible(t, loader)
    ensures Prefix(t, loader, |t.order|).order == t.order
    ensures Prefix(t, loader, |t.order|).entries.Keys == t.entries.Keys
    ensures forall k :: k in t.entries ==>
      Prefix(t, loader, |t.order|).entries[k] == Stored(t.entries[k].config, loader)
  {
    assert t.order[..|t.order|] == t.order;
  }

  /** Saving and then reloading gives back the same keys in the same order with the same
      configurations; every record has its counters reset and its rows re-read. */
  lemma SaveLoadRoundTrip(t: Table, loader: string -> CsvLoad)
    requires ValidTable(t) && AllAdmissible(t, loader)
    ensures Restore(Empty, Snapshot(t), loader).Complete?
    ensures Restore(Empty, Snapshot(t), loader).table.order == t.order
    ensures Restore(Empty, Snapshot(t), loader).table.entries.Keys == t.entries.Keys
    ensures forall k :: k in t.entries ==>
      Restore(Empty, Snapshot(t), loader).table.entries[k] == Stored(t.entries[k].config, loader)
  {
    assert Prefix(t, loader, 0) == Empty;
    assert Snapshot(t)[0..] == Snapshot(t);
    RestoreSuffix(t, loader, 0);
    PrefixAll(t, loader);
  }
}

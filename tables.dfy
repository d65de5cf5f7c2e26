/** `OutpatientManager` and `LocationManager`: a table of records keyed by
    the institution's name and the user who created the row. The database
    is a sequence of rows in insertion order. */
module Tables {
  import opened Base

  /** One row: the institution's name, the creating user and the record. */
  datatype Entry<V> = Entry(name: string, owner: nat, value: V)

  /** The names the table holds. */
  function Names<V(==)>(rows: seq<Entry<V>>): set<string> {
    set e | e in rows :: e.name
  }

  /** `update_or_create` finds at most one row per name and user: no two rows
      share both. */
  predicate Unique<V>(rows: seq<Entry<V>>) {
    forall i, j ::
      0 <= i < |rows| && 0 <= j < |rows| && rows[i].name == rows[j].name && rows[i].owner == rows[j].owner ==> i == j
  }

  /** The position of the row with this name and user. */
  function IndexOf<V>(rows: seq<Entry<V>>, name: string, owner: nat): (r: Option<nat>)
    ensures r.Some? ==> r.value < |rows| && rows[r.value].name == name && rows[r.value].owner == owner
    ensures r.Some? ==> forall i :: 0 <= i < r.value ==> !(rows[i].name == name && rows[i].owner == owner)
    ensures r.None? ==> forall i :: 0 <= i < |rows| ==> !(rows[i].name == name && rows[i].owner == owner)
  {
    if rows == [] then None
    else if rows[0].name == name && rows[0].owner == owner then Some(0)
    else match IndexOf(rows[1..], name, owner)
         case Some(i) => Some(i + 1)
         case None => None
  }

  /** The record stored under this name and user. */
  function Get<V>(rows: seq<Entry<V>>, name: string, owner: nat): Option<V> {
    match IndexOf(rows, name, owner)
    case Some(i) => Some(rows[i].value)
    case None => None
  }

  /** `update_or_create(medical_institution_name=name, created_by=owner,
      defaults=source)`: the matching row takes the new record; without
      one, a row is appended. */
  function Upserted<V>(rows: seq<Entry<V>>, name: string, owner: nat, value: V): (r: seq<Entry<V>>)
    ensures |rows| <= |r| <= |rows| + 1
  {
    match IndexOf(rows, name, owner)
    case Some(i) => rows[i := Entry(name, owner, value)]
    case None => rows + [Entry(name, owner, value)]
  }

  /** `filter(medical_institution_name=name).delete()`: every row with the
      name goes, whoever created it. */
  function Deleted<V(==)>(rows: seq<Entry<V>>, name: string): (r: seq<Entry<V>>)
    ensures |r| <= |rows|
    ensures forall i :: 0 <= i < |r| ==> r[i] in rows && r[i].name != name
    ensures forall i :: 0 <= i < |rows| && rows[i].name != name ==> rows[i] in r
  {
    if rows == [] then []
    else (if rows[0].name == name then [] else [rows[0]]) + Deleted(rows[1..], name)
  }

  /** Upserting stores the record under its key, keeps every other row,
      keeps the keys unique, and adds the name. A new row is appended
      exactly when the key was absent. */
  lemma UpsertedSpec<V>(rows: seq<Entry<V>>, name: string, owner: nat, value: V)
    requires Unique(rows)
    ensures var u := Upserted(rows, name, owner, value);
            && Unique(u)
            && Get(u, name, owner) == Some(value)
            && Names(u) == Names(rows) + {name}
            && (forall e :: e in rows && (e.name != name || e.owner != owner) ==> e in u)
            && (forall e :: e in u && (e.name != name || e.owner != owner) ==> e in rows)
            && |u| == |rows| + (if Get(rows, name, owner).None? then 1 else 0)
  {
    var entry := Entry(name, owner, value);
    match IndexOf(rows, name, owner)
    case Some(k) =>
      ReplacedRow(rows, k, entry);
      ReplacedNames(rows, k, entry);
      IndexOfFirst(rows[k := entry], name, owner, k);
    case None =>
      AppendedRow(rows, entry);
      AppendedNames(rows, entry);
      IndexOfFirst(rows + [entry], name, owner, |rows|);
  }

  /** Replacing the row that holds a key by another row with that key. */
  lemma ReplacedRow<V>(rows: seq<Entry<V>>, k: nat, x: Entry<V>)
    requires Unique(rows) && k < |rows| && rows[k].name == x.name && rows[k].owner == x.owner
    requires forall i :: 0 <= i < k ==> !(rows[i].name == x.name && rows[i].owner == x.owner)
    ensures var u := rows[k := x];
            && Unique(u)
            && (forall i :: 0 <= i < k ==> !(u[i].name == x.name && u[i].owner == x.owner))
            && (forall e :: e in rows && (e.name != x.name || e.owner != x.owner) ==> e in u)
            && (forall e :: e in u && (e.name != x.name || e.owner != x.owner) ==> e in rows)
  {
    var u := rows[k := x];
    forall e | e in rows && (e.name != x.name || e.owner != x.owner) ensures e in u {
      var i :| 0 <= i < |rows| && rows[i] == e;
      assert u[i] == e;
    }
    forall e | e in u && (e.name != x.name || e.owner != x.owner) ensures e in rows {
      var i :| 0 <= i < |u| && u[i] == e;
      assert rows[i] == e;
    }
  }

  lemma ReplacedNames<V>(rows: seq<Entry<V>>, k: nat, x: Entry<V>)
    requires k < |rows| && rows[k].name == x.name
    ensures Names(rows[k := x]) == Names(rows)
  {
    var u := rows[k := x];
    forall n | n in Names(rows) ensures n in Names(u) {
      var e :| e in rows && e.name == n;
      var i :| 0 <= i < |rows| && rows[i] == e;
      assert u[i].name == n;
    }
    forall n | n in Names(u) ensures n in Names(rows) {
      var e :| e in u && e.name == n;
      var i :| 0 <= i < |u| && u[i] == e;
      assert rows[i].name == n;
    }
  }

  /** Appending a row whose key is absent. */
  lemma AppendedRow<V>(rows: seq<Entry<V>>, x: Entry<V>)
    requires Unique(rows)
    requires forall i :: 0 <= i < |rows| ==> !(rows[i].name == x.name && rows[i].owner == x.owner)
    ensures var u := rows + [x];
            && Unique(u)
            && u[|rows|] == x
            && (forall i :: 0 <= i < |rows| ==> !(u[i].name == x.name && u[i].owner == x.owner))
            && (forall e :: e in rows ==> e in u)
            && (forall e :: e in u && e != x ==> e in rows)
  {
  }

  lemma AppendedNames<V>(rows: seq<Entry<V>>, x: Entry<V>)
    ensures Names(rows + [x]) == Names(rows) + {x.name}
  {
    var u := rows + [x];
    assert x in u;
    forall n | n in Names(rows) ensures n in Names(u) {
      var e :| e in rows && e.name == n;
      assert e in u;
    }
    forall n | n in Names(u) ensures n in Names(rows) + {x.name} {
      var e :| e in u && e.name == n;
      if e != x {
        assert e in rows;
      }
    }
  }

  /** The first row with the key is the one `IndexOf` finds. */
  lemma IndexOfFirst<V>(rows: seq<Entry<V>>, name: string, owner: nat, k: nat)
    requires k < |rows| && rows[k].name == name && rows[k].owner == owner
    requires forall i :: 0 <= i < k ==> !(rows[i].name == name && rows[i].owner == owner)
    ensures IndexOf(rows, name, owner) == Some(k)
  {
  }

  /** Upserting one key leaves the record under any other key as it was. */
  lemma GetUpsertedOther<V>(rows: seq<Entry<V>>, name: string, owner: nat, value: V, other: string)
    requires other != name
    ensures Get(Upserted(rows, name, owner, value), other, owner) == Get(rows, other, owner)
  {
    var u := Upserted(rows, name, owner, value);
    match IndexOf(rows, other, owner)
    case Some(k) =>
      IndexOfFirst(u, other, owner, k);
    case None =>
      assert IndexOf(u, other, owner).None?;
  }

  /** Deleting a name removes it and nothing else, and keeps keys unique. */
  lemma DeletedSpec<V>(rows: seq<Entry<V>>, name: string)
    requires Unique(rows)
    ensures Unique(Deleted(rows, name))
    ensures Names(Deleted(rows, name)) == Names(rows) - {name}
  {
    var d := Deleted(rows, name);
    DeletedUnique(rows, name);
    forall x | x in Names(rows) - {name} ensures x in Names(d) {
      var e :| e in rows && e.name == x;
      var i :| 0 <= i < |rows| && rows[i] == e;
      assert e in d;
    }
    forall x | x in Names(d) ensures x in Names(rows) - {name} {
      var e :| e in d && e.name == x;
      var i :| 0 <= i < |d| && d[i] == e;
    }
  }

  lemma {:induction false} DeletedUnique<V>(rows: seq<Entry<V>>, name: string)
    requires Unique(rows)
    ensures Unique(Deleted(rows, name))
    decreases |rows|
  {
    if rows != [] {
      var tail := Deleted(rows[1..], name);
      UniqueTail(rows);
      DeletedUnique(rows[1..], name);
      if rows[0].name != name {
        forall m | 0 <= m < |tail| ensures !(tail[m].name == rows[0].name && tail[m].owner == rows[0].owner) {
          var p :| 0 <= p < |rows[1..]| && rows[1..][p] == tail[m];
          assert rows[p + 1] == tail[m];
        }
        UniqueCons(rows[0], tail);
      }
    }
  }

  lemma UniqueTail<V>(rows: seq<Entry<V>>)
    requires Unique(rows) && rows != []
    ensures Unique(rows[1..])
  {
    forall a, b | 0 <= a < |rows| - 1 && 0 <= b < |rows| - 1 && rows[1..][a].name == rows[1..][b].name
                  && rows[1..][a].owner == rows[1..][b].owner
      ensures a == b
    {
      assert rows[a + 1] == rows[1..][a] && rows[b + 1] == rows[1..][b];
    }
  }

  lemma UniqueCons<V>(x: Entry<V>, rows: seq<Entry<V>>)
    requires Unique(rows)
    requires forall m :: 0 <= m < |rows| ==> !(rows[m].name == x.name && rows[m].owner == x.owner)
    ensures Unique([x] + rows)
  {
    var c := [x] + rows;
    assert forall m :: 0 < m < |c| ==> c[m] == rows[m - 1];
  }

  /** Every item upserted in turn, each under the name `nameOf` gives it. */
  function UpsertAll<V>(rows: seq<Entry<V>>, owner: nat, items: seq<V>, nameOf: V -> string): (r: seq<Entry<V>>)
    ensures |rows| <= |r| <= |rows| + |items|
  {
    if items == [] then rows
    else
      var last := items[|items| - 1];
      Upserted(UpsertAll(rows, owner, items[..|items| - 1], nameOf), nameOf(last), owner, last)
  }

  /** After upserting a list, the table holds its old names and the new
      ones, with unique keys. */
  lemma {:induction false} UpsertAllNames<V>(rows: seq<Entry<V>>, owner: nat, items: seq<V>, nameOf: V -> string)
    requires Unique(rows)
    ensures Unique(UpsertAll(rows, owner, items, nameOf))
    ensures Names(UpsertAll(rows, owner, items, nameOf)) == Names(rows) + set x | x in items :: nameOf(x)
  {
    if items != [] {
      var init, last := items[..|items| - 1], items[|items| - 1];
      UpsertAllNames(rows, owner, init, nameOf);
      UpsertLast(rows, owner, items, nameOf);
      assert items == init + [last];
      NamesOfItems(init, last, nameOf);
    }
  }

  /** One more item upserted into the table the others gave. */
  lemma UpsertLast<V>(rows: seq<Entry<V>>, owner: nat, items: seq<V>, nameOf: V -> string)
    requires items != [] && Unique(UpsertAll(rows, owner, items[..|items| - 1], nameOf))
    ensures var before, last := UpsertAll(rows, owner, items[..|items| - 1], nameOf), items[|items| - 1];
            && Unique(UpsertAll(rows, owner, items, nameOf))
            && Names(UpsertAll(rows, owner, items, nameOf)) == Names(before) + {nameOf(last)}
  {
    var before, last := UpsertAll(rows, owner, items[..|items| - 1], nameOf), items[|items| - 1];
    assert UpsertAll(rows, owner, items, nameOf) == Upserted(before, nameOf(last), owner, last);
    UpsertedSpec(before, nameOf(last), owner, last);
  }

  lemma NamesOfItems<V>(init: seq<V>, last: V, nameOf: V -> string)
    ensures (set x | x in init + [last] :: nameOf(x)) == (set x | x in init :: nameOf(x)) + {nameOf(last)}
  {
    var all := init + [last];
    var before, after := set x | x in init :: nameOf(x), set x | x in all :: nameOf(x);
    forall n | n in after ensures n in before + {nameOf(last)} {
      var x :| x in all && nameOf(x) == n;
      if x != last {
        assert x in init;
      }
    }
    forall n | n in before ensures n in after {
      var x :| x in init && nameOf(x) == n;
      assert x in all;
    }
    assert last in all;
  }

  /** The last item under each name wins: the record stored under it is that
      item. */
  lemma {:induction false} UpsertAllLastWins<V>(rows: seq<Entry<V>>, owner: nat, items: seq<V>, nameOf: V -> string, k: nat)
    requires Unique(rows)
    requires k < |items| && forall j :: k < j < |items| ==> nameOf(items[j]) != nameOf(items[k])
    ensures Get(UpsertAll(rows, owner, items, nameOf), nameOf(items[k]), owner) == Some(items[k])
    decreases |items|
  {
    var init, last := items[..|items| - 1], items[|items| - 1];
    UpsertAllNames(rows, owner, init, nameOf);
    if k == |items| - 1 {
      UpsertedSpec(UpsertAll(rows, owner, init, nameOf), nameOf(last), owner, last);
    } else {
      assert init[k] == items[k];
      UpsertAllLastWins(rows, owner, init, nameOf, k);
      GetUpsertedOther(UpsertAll(rows, owner, init, nameOf), nameOf(last), owner, last, nameOf(items[k]));
    }
  }

  /** The rows of one model, with the manager's operations on them. */
  class Table<V(==)> {
    var rows: seq<Entry<V>>

    predicate Valid()
      reads this
    {
      Unique(rows)
    }

    constructor ()
      ensures rows == [] && Valid()
    {
      rows := [];
    }

    /** `upsert(source, user)`: stores the record under its name and user;
        `created` says whether a row was added. */
    method Upsert(name: string, owner: nat, value: V) returns (created: bool)
      requires Valid()
      modifies this
      ensures Valid()
      ensures rows == Upserted(old(rows), name, owner, value)
      ensures created <==> Get(old(rows), name, owner).None?
    {
      created := IndexOf(rows, name, owner).None?;
      UpsertedSpec(rows, name, owner, value);
      rows := Upserted(rows, name, owner, value);
    }

    /** `delete(name)`: removes every row with the name; the result says
        whether there was one. */
    method Delete(name: string) returns (existed: bool)
      requires Valid()
      modifies this
      ensures Valid()
      ensures rows == Deleted(old(rows), name)
      ensures existed <==> name in Names(old(rows))
    {
      existed := exists e :: e in rows && e.name == name;
      DeletedUnique(rows, name);
      rows := Deleted(rows, name);
    }

    /** `medical_institution_names_list()`: every row's name, in order. */
    function NameList(): (r: seq<string>)
      reads this
      ensures |r| == |rows| && forall i :: 0 <= i < |rows| ==> r[i] == rows[i].name
      ensures forall x :: x in r <==> x in Names(rows)
    {
      seq(|rows|, i reads this requires 0 <= i < |rows| => rows[i].name)
    }
  }
}

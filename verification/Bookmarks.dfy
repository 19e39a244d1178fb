/** The bookmark table (local-stack/desktop-client/src/bookmarks.rs).  Whether the database can be read and written, and
    the random id drawn for a new row, are parameters; a save is refused, as the table's SQL schema does, when two rows
    share an id or a URL. */
module Bookmarks {
  import opened Prelude
  import opened Ascii

  datatype Row = Row(id: Bytes, title: Bytes, url: Bytes, pubkey: Option<Bytes>, paired: bool,
                     agentUrl: Option<Bytes>, agentToken: Option<Bytes>)

  function TrimSlashes(t: Bytes): Bytes {
    if t != [] && t[|t| - 1] == 47 then TrimSlashes(t[..|t| - 1]) else t
  }

  function Norm(url: Bytes): Bytes {
    TrimSlashes(Trim(url))
  }

  // ---- Tables ----

  /** What the operations look for in a row. */
  datatype Test =
    | Url(n: Bytes)                // a normalised URL
    | Raw(u: Bytes)                // a stored URL
    | Id(id: Bytes)
    | Clash(n: Bytes, pk: Bytes)   // a normalised URL paired to another identity
    | Either(a: Bytes, b: Bytes)   // one of two normalised URLs
    | Spare(n: Bytes, keep: Bytes) // a normalised URL, under another id than the kept one
    | Cleared(a: Bytes, b: Bytes, keep: Bytes) // spare for the first URL, or the second URL

  predicate Meets(r: Row, t: Test) {
    match t
    case Url(n) => Norm(r.url) == n
    case Raw(u) => r.url == u
    case Id(id) => r.id == id
    case Clash(n, pk) => Norm(r.url) == n && Conflicts(r, pk)
    case Either(a, b) => Norm(r.url) == a || Norm(r.url) == b
    case Spare(n, keep) => Norm(r.url) == n && r.id != keep
    case Cleared(a, b, keep) => (Norm(r.url) == a && r.id != keep) || Norm(r.url) == b
  }

  /** Another identity already owns the row's URL. */
  predicate Conflicts(r: Row, pk: Bytes) {
    r.paired && r.pubkey.Some? && Trim(r.pubkey.value) != [] && Trim(r.pubkey.value) != pk
  }

  predicate Has(rows: seq<Row>, t: Test) {
    rows != [] && (Has(rows[..|rows| - 1], t) || Meets(rows[|rows| - 1], t))
  }

  /** The rows that meet a test and those that do not, in order. */
  function Select(rows: seq<Row>, t: Test): seq<Row> {
    if rows == [] then []
    else
      var front, last := rows[..|rows| - 1], rows[|rows| - 1];
      if Meets(last, t) then Select(front, t) + [last] else Select(front, t)
  }

  function Drop(rows: seq<Row>, t: Test): seq<Row> {
    if rows == [] then []
    else
      var front, last := rows[..|rows| - 1], rows[|rows| - 1];
      if Meets(last, t) then Drop(front, t) else Drop(front, t) + [last]
  }

  /** All rows but the first that meets the test. */
  function DropFirst(rows: seq<Row>, t: Test): seq<Row> {
    if rows == [] then []
    else
      var front, last := rows[..|rows| - 1], rows[|rows| - 1];
      if Meets(last, t) && !Has(front, t) then front else DropFirst(front, t) + [last]
  }

  /** Index of the first row that meets a test. */
  function Find(rows: seq<Row>, t: Test, from: nat): (r: Option<nat>)
    requires from <= |rows|
    ensures r.Some? ==> from <= r.value < |rows| && Meets(rows[r.value], t)
    ensures r.Some? ==> forall i :: from <= i < r.value ==> !Meets(rows[i], t)
    ensures r.None? ==> forall i :: from <= i < |rows| ==> !Meets(rows[i], t)
    decreases |rows| - from
  {
    if from == |rows| then None else if Meets(rows[from], t) then Some(from) else Find(rows, t, from + 1)
  }

  /** No two rows share a normalised URL. */
  predicate Unique(rows: seq<Row>) {
    rows != [] ==> Unique(rows[..|rows| - 1]) && !Has(rows[..|rows| - 1], Url(Norm(rows[|rows| - 1].url)))
  }

  /** What the SQL schema demands of a table. */
  predicate Storable(rows: seq<Row>) {
    rows != [] ==>
      var front, last := rows[..|rows| - 1], rows[|rows| - 1];
      Storable(front) && !Has(front, Id(last.id)) && !Has(front, Raw(last.url))
  }

  predicate Valid(rows: seq<Row>) {
    Unique(rows) && Storable(rows)
  }

  // ---- Operations on a loaded list; none when the operation fails ----

  /** What the database does: the first and a second read, the save, and the id drawn for a new row. */
  datatype Io = Io(loadOk: bool, reloadOk: bool, saveOk: bool, newId: Bytes)

  function Upserted(rows: seq<Row>, title: Bytes, n: Bytes, newId: Bytes): Option<seq<Row>> {
    if n == [] then None
    else
      match Find(rows, Url(n), 0)
      case Some(i) => Some(rows[i := rows[i].(title := title)])
      case None => Some(rows + [Row(newId, title, n, None, false, None, None)])
  }

  function WithPairing(rows: seq<Row>, n: Bytes, pk: Bytes, newId: Bytes): Option<seq<Row>> {
    if n == [] then None
    else
      match Find(rows, Url(n), 0)
      case Some(i) => Some(rows[i := rows[i].(paired := true, pubkey := Some(pk))])
      case None => Some(rows + [Row(newId, n, n, Some(pk), true, None, None)])
  }

  function Migrated(rows: seq<Row>, oldN: Bytes, newN: Bytes, key: Bytes, newId: Bytes): Option<seq<Row>> {
    var pk := Trim(key);
    if pk == [] || oldN == [] || newN == [] then None
    else
      var olds := Select(rows, Url(oldN));
      var list := if |olds| > 1 then Drop(rows, Spare(oldN, olds[0].id)) else rows;
      if Has(list, Clash(newN, pk)) then None
      else
        var rest := Drop(list, Url(newN));
        if olds == [] then Some(rest + [Row(newId, newN, newN, Some(pk), true, None, None)])
        else
          match Find(rest, Id(olds[0].id), 0)
          case None => None
          case Some(i) => Some(rest[i := rest[i].(url := newN, paired := true, pubkey := Some(pk))])
  }

  // ---- The stored table ----

  datatype Op =
    | Upsert(title: Bytes, url: Bytes)
    | Pair(url: Bytes, key: Bytes)
    | Remove(id: Bytes)
    | SetLabel(id: Bytes, title: Bytes)
    | Migrate(oldUrl: Bytes, newUrl: Bytes, key: Bytes)

  function Edited(rows: seq<Row>, op: Op, newId: Bytes): Option<seq<Row>> {
    match op
    case Upsert(title, url) => Upserted(rows, title, Norm(url), newId)
    case Pair(url, pk) => WithPairing(rows, Norm(url), pk, newId)
    case Remove(id) => Some(Drop(rows, Id(id)))
    case SetLabel(_, _) => None
    case Migrate(o, n, pk) => Migrated(rows, Norm(o), Norm(n), pk, newId)
  }

  /** A failed read gives the empty list. */
  function Loaded(rows: seq<Row>, ok: bool): seq<Row> {
    if ok then rows else []
  }

  /** Relabelling by id looks the row up and upserts its URL, which reads the table again. */
  function Resolved(rows: seq<Row>, op: Op, io: Io): Op {
    match op
    case SetLabel(id, title) =>
      var at := Find(Loaded(rows, io.loadOk), Id(id), 0);
      if Trim(title) != [] && at.Some? then Upsert(Trim(title), Loaded(rows, io.loadOk)[at.value].url) else op
    case _ => op
  }

  /** Whether the read an edit is based on worked, and the list it gave. */
  predicate Read(op: Op, io: Io) {
    if op.SetLabel? then io.reloadOk else io.loadOk
  }

  function List(rows: seq<Row>, op: Op, io: Io): seq<Row> {
    Loaded(rows, Read(op, io))
  }

  predicate Succeeds(rows: seq<Row>, op: Op, io: Io) {
    var edited := Edited(List(rows, op, io), Resolved(rows, op, io), io.newId);
    edited.Some? && io.saveOk && Storable(edited.value)
  }

  /** The table after an operation: a failed edit or save leaves it unchanged. */
  function Apply(rows: seq<Row>, op: Op, io: Io): seq<Row> {
    if Succeeds(rows, op, io) then Edited(List(rows, op, io), Resolved(rows, op, io), io.newId).value else rows
  }

  /** The id of the row an upsert writes. */
  function UpsertId(rows: seq<Row>, n: Bytes, newId: Bytes): Bytes {
    match Find(rows, Url(n), 0)
    case Some(i) => rows[i].id
    case None => newId
  }

  /** The migration's loop over the rows for the new URL. */
  method Taken(list: seq<Row>, n: Bytes, pk: Bytes) returns (taken: bool)
    ensures taken <==> Has(list, Clash(n, pk))
  {
    for i := 0 to |list|
      invariant !Has(list[..i], Clash(n, pk))
    {
      assert list[..i + 1][..i] == list[..i];
      if Norm(list[i].url) == n && Conflicts(list[i], pk) {
        HasAt(list, Clash(n, pk), i);
        return true;
      }
    }
    assert list[..|list|] == list;
    taken := false;
  }

  class BookmarkStore {
    var rows: seq<Row>

    method Load(ok: bool) returns (list: seq<Row>)
      ensures list == Loaded(rows, ok)
    {
      list := if ok then rows else [];
    }

    method Save(list: seq<Row>, io: Io) returns (ok: bool)
      modifies this
      ensures ok <==> io.saveOk && Storable(list)
      ensures rows == if ok then list else old(rows)
    {
      ok := io.saveOk && Storable(list);
      if ok {
        rows := list;
      }
    }

    /** Label the first row for the URL, or add one. */
    method UpsertBookmark(title: Bytes, url: Bytes, io: Io) returns (id: Option<Bytes>)
      modifies this
      ensures rows == Apply(old(rows), Upsert(title, url), io)
      ensures id == if Succeeds(old(rows), Upsert(title, url), io)
                    then Some(UpsertId(Loaded(old(rows), io.loadOk), Norm(url), io.newId)) else None
    {
      var n := Norm(url);
      if n == [] {
        return None;
      }
      var list := Load(io.loadOk);
      var i := 0;
      while i < |list|
        invariant 0 <= i <= |list|
        invariant Find(list, Url(n), i) == Find(list, Url(n), 0)
      {
        if Norm(list[i].url) == n {
          list := list[i := list[i].(title := title)];
          var found := list[i].id;
          var saved := Save(list, io);
          return if saved then Some(found) else None;
        }
        i := i + 1;
      }
      list := list + [Row(io.newId, title, n, None, false, None, None)];
      var saved := Save(list, io);
      id := if saved then Some(io.newId) else None;
    }

    method SetBookmarkPairing(url: Bytes, key: Bytes, io: Io) returns (ok: bool)
      modifies this
      ensures rows == Apply(old(rows), Pair(url, key), io)
      ensures ok == Succeeds(old(rows), Pair(url, key), io)
    {
      var n := Norm(url);
      if n == [] {
        return false;
      }
      var list := Load(io.loadOk);
      var at := Find(list, Url(n), 0);
      if at.Some? {
        list := list[at.value := list[at.value].(paired := true, pubkey := Some(key))];
      } else {
        list := list + [Row(io.newId, n, n, Some(key), true, None, None)];
      }
      ok := Save(list, io);
    }

    method RemoveBookmark(id: Bytes, io: Io) returns (ok: bool)
      modifies this
      ensures rows == Apply(old(rows), Remove(id), io)
      ensures ok == Succeeds(old(rows), Remove(id), io)
    {
      var list := Load(io.loadOk);
      var kept: seq<Row> := [];
      for i := 0 to |list|
        invariant kept == Drop(list[..i], Id(id))
      {
        assert list[..i + 1][..i] == list[..i];
        if list[i].id != id {
          kept := kept + [list[i]];
        }
      }
      assert list[..|list|] == list;
      ok := Save(kept, io);
    }

    method SetBookmarkLabel(id: Bytes, title: Bytes, io: Io) returns (ok: bool)
      modifies this
      ensures rows == Apply(old(rows), SetLabel(id, title), io)
      ensures ok == Succeeds(old(rows), SetLabel(id, title), io)
    {
      var l := Trim(title);
      if l == [] {
        return false;
      }
      var list := Load(io.loadOk);
      var at := Find(list, Id(id), 0);
      if at.None? {
        return false;
      }
      var r := UpsertBookmark(l, list[at.value].url, io.(loadOk := io.reloadOk));
      ok := r.Some?;
    }

    method MigrateBookmarkUrl(oldUrl: Bytes, newUrl: Bytes, key: Bytes, io: Io) returns (ok: bool)
      modifies this
      ensures rows == Apply(old(rows), Migrate(oldUrl, newUrl, key), io)
      ensures ok == Succeeds(old(rows), Migrate(oldUrl, newUrl, key), io)
    {
      var oldN, newN, pk := Norm(oldUrl), Norm(newUrl), Trim(key);
      if pk == [] {
        return false;
      }
      if oldN == [] || newN == [] {
        return false;
      }
      var list := Load(io.loadOk);
      var olds := Select(list, Url(oldN));
      if |olds| > 1 {
        list := Drop(list, Spare(oldN, olds[0].id));
      }
      var taken := Taken(list, newN, pk);
      if taken {
        return false;
      }
      list := Drop(list, Url(newN));
      if olds != [] {
        var at := Find(list, Id(olds[0].id), 0);
        if at.None? {
          return false;
        }
        list := list[at.value := list[at.value].(url := newN, paired := true, pubkey := Some(pk))];
      } else {
        list := list + [Row(io.newId, newN, newN, Some(pk), true, None, None)];
      }
      ok := Save(list, io);
    }
  }

  // ---- Tests and filters ----

  lemma {:induction false} HasAt(rows: seq<Row>, t: Test, i: nat)
    requires i < |rows| && Meets(rows[i], t)
    ensures Has(rows, t)
  {
    if i < |rows| - 1 {
      HasAt(rows[..|rows| - 1], t, i);
    }
  }

  lemma {:induction false} HasIndex(rows: seq<Row>, t: Test) returns (i: nat)
    requires Has(rows, t)
    ensures i < |rows| && Meets(rows[i], t)
  {
    if Has(rows[..|rows| - 1], t) {
      i := HasIndex(rows[..|rows| - 1], t);
    } else {
      i := |rows| - 1;
    }
  }

  lemma HasSnoc(rows: seq<Row>, r: Row, t: Test)
    ensures Has(rows + [r], t) <==> Has(rows, t) || Meets(r, t)
  {
    assert (rows + [r])[..|rows|] == rows;
  }

  lemma {:induction false} SelectHas(rows: seq<Row>, t: Test)
    ensures Select(rows, t) != [] <==> Has(rows, t)
    ensures Select(rows, t) != [] ==> Meets(Select(rows, t)[0], t)
  {
    if rows == [] {
    } else {
      SelectHas(rows[..|rows| - 1], t);
    }
  }

  lemma {:induction false} NothingMeets(rows: seq<Row>, t: Test)
    requires !Has(rows, t)
    ensures Drop(rows, t) == rows && DropFirst(rows, t) == rows
  {
    if rows == [] {
    } else {
      var front, last := rows[..|rows| - 1], rows[|rows| - 1];
      NothingMeets(front, t);
      assert Drop(rows, t) == front + [last] == DropFirst(rows, t);
    }
  }

  /** A filter takes out every row that meets its test, and only those. */
  lemma {:induction false} HasDrop(rows: seq<Row>, t: Test, u: Test)
    ensures Has(Drop(rows, t), u) ==> Has(rows, u)
    ensures (forall r :: Meets(r, u) ==> Meets(r, t)) ==> !Has(Drop(rows, t), u)
    ensures (forall r :: Meets(r, u) ==> !Meets(r, t)) ==> (Has(Drop(rows, t), u) <==> Has(rows, u))
  {
    if rows == [] {
    } else {
      var front, last := rows[..|rows| - 1], rows[|rows| - 1];
      HasDrop(front, t, u);
      HasSnoc(Drop(front, t), last, u);
    }
  }

  lemma {:induction false} DropDrop(rows: seq<Row>, t: Test, u: Test, v: Test)
    requires forall r :: Meets(r, v) <==> Meets(r, t) || Meets(r, u)
    ensures Drop(Drop(rows, t), u) == Drop(rows, v)
  {
    if rows == [] {
    } else {
      var front, last := rows[..|rows| - 1], rows[|rows| - 1];
      DropDrop(front, t, u, v);
      var d := Drop(front, t);
      assert (d + [last])[..|d|] == d;
      assert Meets(last, v) <==> Meets(last, t) || Meets(last, u);
    }
  }

  lemma {:induction false} UniqueDrop(rows: seq<Row>, t: Test)
    requires Unique(rows)
    ensures Unique(Drop(rows, t))
  {
    if rows == [] {
    } else {
      var front, last := rows[..|rows| - 1], rows[|rows| - 1];
      UniqueDrop(front, t);
      HasDrop(front, t, Url(Norm(last.url)));
      UniqueSnoc(Drop(front, t), last);
    }
  }

  lemma UniqueSnoc(rows: seq<Row>, r: Row)
    ensures Unique(rows + [r]) <==> Unique(rows) && !Has(rows, Url(Norm(r.url)))
  {
    assert (rows + [r])[..|rows|] == rows;
  }

  lemma {:induction false} StorableDrop(rows: seq<Row>, t: Test)
    requires Storable(rows)
    ensures Storable(Drop(rows, t))
  {
    if rows == [] {
    } else {
      var front, last := rows[..|rows| - 1], rows[|rows| - 1];
      StorableDrop(front, t);
      HasDrop(front, t, Id(last.id));
      HasDrop(front, t, Raw(last.url));
      StorableSnoc(Drop(front, t), last);
    }
  }

  lemma StorableSnoc(rows: seq<Row>, r: Row)
    ensures Storable(rows + [r]) <==> Storable(rows) && !Has(rows, Id(r.id)) && !Has(rows, Raw(r.url))
  {
    assert (rows + [r])[..|rows|] == rows;
  }

  // ---- Tables by position ----

  lemma HasIff(rows: seq<Row>, t: Test)
    ensures Has(rows, t) <==> exists i :: 0 <= i < |rows| && Meets(rows[i], t)
  {
    if Has(rows, t) {
      var i := HasIndex(rows, t);
    }
    if i :| 0 <= i < |rows| && Meets(rows[i], t) {
      HasAt(rows, t, i);
    }
  }

  lemma {:induction false} UniqueIff(rows: seq<Row>)
    ensures Unique(rows) <==> forall i, j :: 0 <= i < j < |rows| ==> Norm(rows[i].url) != Norm(rows[j].url)
  {
    if rows == [] {
    } else {
      var n := |rows| - 1;
      UniqueIff(rows[..n]);
      HasIff(rows[..n], Url(Norm(rows[n].url)));
      assert forall i :: 0 <= i < n ==> rows[..n][i] == rows[i];
    }
  }

  /** The primary key and the unique column of the schema. */
  lemma {:induction false} StorableIff(rows: seq<Row>)
    ensures Storable(rows)
            <==> forall i, j :: 0 <= i < j < |rows| ==> rows[i].id != rows[j].id && rows[i].url != rows[j].url
  {
    if rows == [] {
    } else {
      var n := |rows| - 1;
      StorableIff(rows[..n]);
      HasIff(rows[..n], Id(rows[n].id));
      HasIff(rows[..n], Raw(rows[n].url));
      assert forall i :: 0 <= i < n ==> rows[..n][i] == rows[i];
    }
  }

  /** A row that belongs to another identity: it is paired, and its key is given and differs. */
  lemma ClashIff(rows: seq<Row>, n: Bytes, pk: Bytes)
    ensures Has(rows, Clash(n, pk))
            <==> exists i, key :: && 0 <= i < |rows| && rows[i].pubkey == Some(key) && Norm(rows[i].url) == n
                                  && rows[i].paired && Trim(key) != [] && Trim(key) != pk
  {
    HasIff(rows, Clash(n, pk));
    if i, key :| && 0 <= i < |rows| && rows[i].pubkey == Some(key) && Norm(rows[i].url) == n
                 && rows[i].paired && Trim(key) != [] && Trim(key) != pk {
      assert Meets(rows[i], Clash(n, pk));
    }
    if i :| 0 <= i < |rows| && Meets(rows[i], Clash(n, pk)) {
      assert rows[i].pubkey == Some(rows[i].pubkey.value);
    }
  }

  /** The normal form is the trimmed URL without the slashes at its end. */
  lemma NormIs(url: Bytes)
    ensures var t, n := Trim(url), Norm(url);
            && n <= t && (n != [] ==> n[|n| - 1] != 47)
            && forall i :: |n| <= i < |t| ==> t[i] == 47
  {
    TrimSlashesPrefix(Trim(url));
    OnlySlashesCut(Trim(url));
  }

  lemma {:induction false} OnlySlashesCut(t: Bytes)
    ensures forall i :: |TrimSlashes(t)| <= i < |t| ==> t[i] == 47
  {
    if t != [] && t[|t| - 1] == 47 {
      OnlySlashesCut(t[..|t| - 1]);
    }
  }

  // ---- One row written ----

  function Inserted(rows: seq<Row>, k: nat, r: Row): seq<Row>
    requires k <= |rows|
  {
    rows[..k] + [r] + rows[k..]
  }

  /** The table holds the given other rows, in order, and one row more, if any. */
  ghost predicate Written(after: seq<Row>, row: Option<Row>, others: seq<Row>) {
    match row
    case None => after == others
    case Some(r) => exists k :: 0 <= k <= |others| && after == Inserted(others, k, r)
  }

  lemma InsertedSnoc(rows: seq<Row>, k: nat, r: Row, last: Row)
    requires k <= |rows|
    ensures Inserted(rows, k, r) + [last] == Inserted(rows + [last], k, r)
  {
  }

  lemma SnocInserts(rows: seq<Row>, r: Row)
    ensures rows + [r] == Inserted(rows, |rows|, r)
  {
  }

  lemma {:induction false} HasInserted(rows: seq<Row>, k: nat, r: Row, t: Test)
    requires k <= |rows|
    ensures Has(Inserted(rows, k, r), t) <==> Has(rows, t) || Meets(r, t)
  {
    if k == |rows| {
      SnocInserts(rows, r);
      HasSnoc(rows, r, t);
    } else {
      var front, last := rows[..|rows| - 1], rows[|rows| - 1];
      assert rows == front + [last];
      HasInserted(front, k, r, t);
      InsertedSnoc(front, k, r, last);
      HasSnoc(Inserted(front, k, r), last, t);
    }
  }

  lemma {:induction false} InsertedUnique(rows: seq<Row>, k: nat, r: Row)
    requires k <= |rows|
    ensures Unique(Inserted(rows, k, r)) <==> Unique(rows) && !Has(rows, Url(Norm(r.url)))
  {
    if k == |rows| {
      SnocInserts(rows, r);
      UniqueSnoc(rows, r);
    } else {
      var front, last := rows[..|rows| - 1], rows[|rows| - 1];
      assert rows == front + [last];
      InsertedUnique(front, k, r);
      InsertedSnoc(front, k, r, last);
      UniqueSnoc(Inserted(front, k, r), last);
      HasInserted(front, k, r, Url(Norm(last.url)));
    }
  }

  lemma {:induction false} InsertedStorable(rows: seq<Row>, k: nat, r: Row)
    requires k <= |rows|
    ensures Storable(Inserted(rows, k, r)) <==> Storable(rows) && !Has(rows, Id(r.id)) && !Has(rows, Raw(r.url))
  {
    if k == |rows| {
      SnocInserts(rows, r);
      StorableSnoc(rows, r);
    } else {
      var front, last := rows[..|rows| - 1], rows[|rows| - 1];
      assert rows == front + [last];
      InsertedStorable(front, k, r);
      InsertedSnoc(front, k, r, last);
      StorableSnoc(Inserted(front, k, r), last);
      HasInserted(front, k, r, Id(last.id));
      HasInserted(front, k, r, Raw(last.url));
    }
  }

  lemma WrittenValid(after: seq<Row>, r: Row, others: seq<Row>)
    requires Written(after, Some(r), others)
    ensures Unique(after) <==> Unique(others) && !Has(others, Url(Norm(r.url)))
    ensures Storable(after) <==> Storable(others) && !Has(others, Id(r.id)) && !Has(others, Raw(r.url))
  {
    var k :| 0 <= k <= |others| && after == Inserted(others, k, r);
    InsertedUnique(others, k, r);
    InsertedStorable(others, k, r);
  }

  /** The first row that meets a test, found by its index. */
  lemma {:induction false} FirstAt(rows: seq<Row>, t: Test, i: nat)
    requires i < |rows| && Meets(rows[i], t)
    requires forall j :: 0 <= j < i ==> !Meets(rows[j], t)
    ensures Has(rows, t) && Select(rows, t) != [] && Select(rows, t)[0] == rows[i]
    ensures DropFirst(rows, t) == rows[..i] + rows[i + 1..]
  {
    var n := |rows| - 1;
    var front := rows[..n];
    if i < n {
      FirstAt(front, t, i);
      GapSnoc(rows, i);
    } else {
      NotHas(front, t);
    }
  }

  lemma GapSnoc(rows: seq<Row>, i: nat)
    requires i < |rows| - 1
    ensures var n, front := |rows| - 1, rows[..|rows| - 1];
            front[..i] + front[i + 1..] + [rows[n]] == rows[..i] + rows[i + 1..]
  {
  }

  lemma NotHas(rows: seq<Row>, t: Test)
    requires forall j :: 0 <= j < |rows| ==> !Meets(rows[j], t)
    ensures !Has(rows, t) && Select(rows, t) == []
  {
    if Has(rows, t) {
      var j := HasIndex(rows, t);
    }
    SelectHas(rows, t);
  }

  lemma UpdateInserts(rows: seq<Row>, i: nat, r: Row)
    requires i < |rows|
    ensures rows[i := r] == Inserted(rows[..i] + rows[i + 1..], i, r)
  {
  }

  lemma WrittenAt(after: seq<Row>, r: Row, others: seq<Row>, k: nat)
    requires k <= |others| && after == Inserted(others, k, r)
    ensures Written(after, Some(r), others)
  {
  }

  /** Writing a row over the first one that meets a test, or behind all rows when none does. */
  lemma PutWrites(rows: seq<Row>, t: Test, r: Row, after: seq<Row>)
    requires var at := Find(rows, t, 0); after == if at.Some? then rows[at.value := r] else rows + [r]
    ensures Written(after, Some(r), DropFirst(rows, t))
  {
    match Find(rows, t, 0) {
      case Some(i) =>
        FirstAt(rows, t, i);
        UpdateInserts(rows, i, r);
        WrittenAt(after, r, DropFirst(rows, t), i);
      case None =>
        NotHas(rows, t);
        NothingMeets(rows, t);
        SnocInserts(rows, r);
        WrittenAt(after, r, rows, |rows|);
    }
  }

  lemma FindSelects(rows: seq<Row>, t: Test)
    ensures var at := Find(rows, t, 0);
            if at.Some? then Select(rows, t) != [] && Select(rows, t)[0] == rows[at.value] && Has(rows, t)
            else Select(rows, t) == [] && !Has(rows, t)
  {
    match Find(rows, t, 0) {
      case Some(i) => FirstAt(rows, t, i);
      case None => NotHas(rows, t);
    }
  }

  /** Taking the first row that meets a test out of a table, and what then is no longer there. */
  lemma FirstWritten(rows: seq<Row>, t: Test)
    requires Has(rows, t)
    ensures Select(rows, t) != [] && Written(rows, Some(Select(rows, t)[0]), DropFirst(rows, t))
  {
    FindSelects(rows, t);
    var i := Find(rows, t, 0).value;
    assert rows[i := rows[i]] == rows;
    PutWrites(rows, t, rows[i], rows);
  }

  /** In a unique table the first row for a URL is the only one. */
  lemma {:induction false} FirstIsOnly(rows: seq<Row>, n: Bytes)
    requires Unique(rows)
    ensures DropFirst(rows, Url(n)) == Drop(rows, Url(n))
  {
    if rows == [] {
    } else {
      var front := rows[..|rows| - 1];
      FirstIsOnly(front, n);
      if !Has(front, Url(n)) {
        NothingMeets(front, Url(n));
      }
    }
  }

  // ---- What each operation writes, and the rows it does not concern ----

  /** The row an operation writes into a table. */
  function RowWritten(rows: seq<Row>, op: Op, newId: Bytes): Option<Row> {
    match op
    case Upsert(title, url) => Some(UpsertRow(rows, title, Norm(url), newId))
    case Pair(url, key) => Some(PairRow(rows, Norm(url), key, newId))
    case Remove(id) => None
    case SetLabel(_, _) => None
    case Migrate(o, n, key) => Some(MovedRow(rows, Norm(o), Norm(n), Trim(key), newId))
  }

  function UpsertRow(rows: seq<Row>, title: Bytes, n: Bytes, newId: Bytes): Row {
    var s := Select(rows, Url(n));
    if s != [] then s[0].(title := title) else Row(newId, title, n, None, false, None, None)
  }

  function PairRow(rows: seq<Row>, n: Bytes, key: Bytes, newId: Bytes): Row {
    var s := Select(rows, Url(n));
    if s != [] then s[0].(paired := true, pubkey := Some(key)) else Row(newId, n, n, Some(key), true, None, None)
  }

  /** The old row, moved, or a new one. */
  function MovedRow(rows: seq<Row>, oldN: Bytes, newN: Bytes, pk: Bytes, newId: Bytes): Row {
    var s := Select(rows, Url(oldN));
    if s != [] then s[0].(url := newN, paired := true, pubkey := Some(pk))
    else Row(newId, newN, newN, Some(pk), true, None, None)
  }

  /** The rows an operation has nothing to do with. */
  function Bystanders(rows: seq<Row>, op: Op): seq<Row> {
    match op
    case Upsert(_, url) => DropFirst(rows, Url(Norm(url)))
    case Pair(url, _) => DropFirst(rows, Url(Norm(url)))
    case Remove(id) => Drop(rows, Id(id))
    case SetLabel(_, _) => rows
    case Migrate(o, n, _) => Drop(rows, Either(Norm(o), Norm(n)))
  }

  lemma UpsertedWrites(rows: seq<Row>, title: Bytes, n: Bytes, newId: Bytes)
    requires n != []
    ensures var r := Upserted(rows, title, n, newId);
            r.Some? && Written(r.value, Some(UpsertRow(rows, title, n, newId)), DropFirst(rows, Url(n)))
  {
    FindSelects(rows, Url(n));
    PutWrites(rows, Url(n), UpsertRow(rows, title, n, newId), Upserted(rows, title, n, newId).value);
  }

  lemma PairedWrites(rows: seq<Row>, n: Bytes, key: Bytes, newId: Bytes)
    requires n != []
    ensures var r := WithPairing(rows, n, key, newId);
            r.Some? && Written(r.value, Some(PairRow(rows, n, key, newId)), DropFirst(rows, Url(n)))
  {
    FindSelects(rows, Url(n));
    PutWrites(rows, Url(n), PairRow(rows, n, key, newId), WithPairing(rows, n, key, newId).value);
  }

  lemma {:induction false} HasImplies(rows: seq<Row>, t: Test, u: Test)
    requires Has(rows, t) && forall r :: Meets(r, t) ==> Meets(r, u)
    ensures Has(rows, u)
  {
    var i := HasIndex(rows, t);
    HasAt(rows, u, i);
  }

  /** A URL with one row has no spare rows. */
  lemma {:induction false} NoSpare(rows: seq<Row>, n: Bytes)
    requires |Select(rows, Url(n))| == 1
    ensures !Has(rows, Spare(n, Select(rows, Url(n))[0].id))
  {
    var front, last := rows[..|rows| - 1], rows[|rows| - 1];
    var keep := Select(rows, Url(n))[0].id;
    if Meets(last, Url(n)) {
      assert Select(front, Url(n)) == [];
      SelectHas(front, Url(n));
      if Has(front, Spare(n, keep)) {
        HasImplies(front, Spare(n, keep), Url(n));
      }
    } else {
      NoSpare(front, n);
    }
  }

  /** What is left before the old row is moved: that row, and the rows for neither URL. */
  lemma {:induction false} RestSplits(rows: seq<Row>, oldN: Bytes, newN: Bytes, keep: Bytes) returns (i: nat)
    requires Storable(rows) && oldN != newN
    requires Select(rows, Url(oldN)) != [] && Select(rows, Url(oldN))[0].id == keep
    ensures var rest, others := Drop(rows, Cleared(oldN, newN, keep)), Drop(rows, Either(oldN, newN));
            i <= |others| && rest == Inserted(others, i, Select(rows, Url(oldN))[0])
  {
    var front, last := rows[..|rows| - 1], rows[|rows| - 1];
    var others := Drop(front, Either(oldN, newN));
    SelectHas(front, Url(oldN));
    if Select(front, Url(oldN)) == [] {
      NoOldRow(front, oldN, newN, keep);
      i := |others|;
    } else {
      i := RestSplits(front, oldN, newN, keep);
      KeptId(front, Url(oldN));
      InsertedSnoc(others, i, Select(front, Url(oldN))[0], last);
    }
  }

  lemma {:induction false} NoOldRow(rows: seq<Row>, oldN: Bytes, newN: Bytes, keep: Bytes)
    requires !Has(rows, Url(oldN))
    ensures Drop(rows, Cleared(oldN, newN, keep)) == Drop(rows, Either(oldN, newN)) == Drop(rows, Url(newN))
  {
    if rows == [] {
    } else {
      NoOldRow(rows[..|rows| - 1], oldN, newN, keep);
    }
  }

  lemma KeptId(rows: seq<Row>, t: Test)
    requires Has(rows, t)
    ensures Select(rows, t) != [] && Has(rows, Id(Select(rows, t)[0].id))
  {
    FindSelects(rows, t);
    HasAt(rows, Id(Select(rows, t)[0].id), Find(rows, t, 0).value);
  }

  lemma MigratedWrites(rows: seq<Row>, oldN: Bytes, newN: Bytes, key: Bytes, newId: Bytes)
    requires Storable(rows)
    ensures var r := Migrated(rows, oldN, newN, key, newId);
            && (r.Some? <==> Trim(key) != [] && oldN != [] && newN != [] && !Has(rows, Clash(newN, Trim(key)))
                             && !(oldN == newN && Has(rows, Url(oldN))))
            && (r.Some? ==> Written(r.value, Some(MovedRow(rows, oldN, newN, Trim(key), newId)),
                                    Drop(rows, Either(oldN, newN))))
  {
    SelectHas(rows, Url(oldN));
    if !Has(rows, Url(oldN)) {
      NoOldRow(rows, oldN, newN, []);
      var others := Drop(rows, Either(oldN, newN));
      var r := MovedRow(rows, oldN, newN, Trim(key), newId);
      assert others + [r] == Inserted(others, |others|, r);
    } else {
      SpareDropped(rows, oldN);
      var keep := Select(rows, Url(oldN))[0].id;
      var list := Drop(rows, Spare(oldN, keep));
      if oldN == newN {
        InPlace(rows, oldN);
      } else {
        HasDrop(rows, Spare(oldN, keep), Clash(newN, Trim(key)));
        MovedInPlace(rows, oldN, newN, Trim(key), newId);
      }
    }
  }

  /** Testing for a second row before dropping the spare ones makes no difference. */
  lemma SpareDropped(rows: seq<Row>, n: Bytes)
    requires Has(rows, Url(n))
    ensures var olds := Select(rows, Url(n));
            && olds != []
            && Drop(rows, Spare(n, olds[0].id)) == if |olds| > 1 then Drop(rows, Spare(n, olds[0].id)) else rows
  {
    var olds := Select(rows, Url(n));
    SelectHas(rows, Url(n));
    if |olds| == 1 {
      NoSpare(rows, n);
      NothingMeets(rows, Spare(n, olds[0].id));
    }
  }

  /** A migration in place loses the row it is about to move. */
  lemma InPlace(rows: seq<Row>, n: Bytes)
    requires Storable(rows) && Has(rows, Url(n))
    ensures var olds := Select(rows, Url(n));
            olds != [] && Find(Drop(Drop(rows, Spare(n, olds[0].id)), Url(n)), Id(olds[0].id), 0).None?
  {
    var first := Select(rows, Url(n))[0];
    FirstWritten(rows, Url(n));
    WrittenValid(rows, first, DropFirst(rows, Url(n)));
    DropDrop(rows, Spare(n, first.id), Url(n), Url(n));
    DropAfterFirst(rows, Url(n));
    HasDrop(DropFirst(rows, Url(n)), Url(n), Id(first.id));
    FindSelects(Drop(rows, Url(n)), Id(first.id));
  }

  lemma {:induction false} DropAfterFirst(rows: seq<Row>, t: Test)
    ensures Drop(DropFirst(rows, t), t) == Drop(rows, t)
  {
    if rows == [] {
    } else {
      var front, last := rows[..|rows| - 1], rows[|rows| - 1];
      DropAfterFirst(front, t);
      var d := DropFirst(front, t);
      assert (d + [last])[..|d|] == d;
    }
  }

  lemma MovedInPlace(rows: seq<Row>, oldN: Bytes, newN: Bytes, pk: Bytes, newId: Bytes)
    requires Storable(rows) && oldN != newN && Has(rows, Url(oldN))
    ensures var olds, others := Select(rows, Url(oldN)), Drop(rows, Either(oldN, newN));
            && olds != []
            && var rest := Drop(Drop(rows, Spare(oldN, olds[0].id)), Url(newN));
            var at := Find(rest, Id(olds[0].id), 0);
            && at.Some?
            && Written(rest[at.value := rest[at.value].(url := newN, paired := true, pubkey := Some(pk))],
                       Some(MovedRow(rows, oldN, newN, pk, newId)), others)
  {
    SelectHas(rows, Url(oldN));
    var first := Select(rows, Url(oldN))[0];
    var others := Drop(rows, Either(oldN, newN));
    DropDrop(rows, Spare(oldN, first.id), Url(newN), Cleared(oldN, newN, first.id));
    StorableDrop(rows, Cleared(oldN, newN, first.id));
    var i := RestSplits(rows, oldN, newN, first.id);
    FoundInserted(others, i, first, MovedRow(rows, oldN, newN, pk, newId));
  }

  /** The row put between the others is found by its id, and writing over it leaves the others. */
  lemma FoundInserted(others: seq<Row>, i: nat, first: Row, r: Row)
    requires i <= |others| && Storable(Inserted(others, i, first))
    ensures var rest := Inserted(others, i, first);
            var at := Find(rest, Id(first.id), 0);
            at == Some(i) && rest[i] == first && Written(rest[i := r], Some(r), others)
  {
    var rest := Inserted(others, i, first);
    InsertedStorable(others, i, first);
    assert rest[i] == first && rest[i := r] == Inserted(others, i, r);
    var at := Find(rest, Id(first.id), 0).value;
    if at < i {
      assert rest[at] == others[at];
      HasAt(others, Id(first.id), at);
    }
  }

  /** Every successful edit leaves the rows it does not concern, in order, and the row it writes. */
  lemma EditedWrites(rows: seq<Row>, op: Op, newId: Bytes)
    requires Storable(rows) && Edited(rows, op, newId).Some?
    ensures Written(Edited(rows, op, newId).value, RowWritten(rows, op, newId), Bystanders(rows, op))
  {
    match op {
      case Upsert(title, url) => UpsertedWrites(rows, title, Norm(url), newId);
      case Pair(url, key) => PairedWrites(rows, Norm(url), key, newId);
      case Remove(id) =>
      case Migrate(o, n, key) => MigratedWrites(rows, Norm(o), Norm(n), key, newId);
    }
  }

  // ---- What an operation does to the stored table, whatever the database does ----

  /** A failed operation changes nothing.  A successful one leaves the rows read that it does not concern, in order, and
      the row it writes. */
  lemma StepWrites(rows: seq<Row>, op: Op, io: Io)
    requires Storable(rows)
    ensures var list, edit, after := List(rows, op, io), Resolved(rows, op, io), Apply(rows, op, io);
            if Succeeds(rows, op, io) then Written(after, RowWritten(list, edit, io.newId), Bystanders(list, edit))
            else after == rows
  {
    if Succeeds(rows, op, io) {
      EditedWrites(List(rows, op, io), Resolved(rows, op, io), io.newId);
    }
  }

  /** The stored rows that an edit does not concern are all there afterwards, in order, beside at most one row. */
  ghost predicate Spared(rows: seq<Row>, edit: Op, after: seq<Row>) {
    exists row: Option<Row> :: row.None? == edit.Remove? && Written(after, row, Bystanders(rows, edit))
  }

  /** A successful operation spares them exactly when the read its edit is based on worked, or there were none. */
  lemma BystandersSurvive(rows: seq<Row>, op: Op, io: Io)
    requires Storable(rows) && Succeeds(rows, op, io)
    ensures var edit := Resolved(rows, op, io);
            Spared(rows, edit, Apply(rows, op, io)) <==> Read(op, io) || Bystanders(rows, edit) == []
  {
    var list, edit, after := List(rows, op, io), Resolved(rows, op, io), Apply(rows, op, io);
    var row := RowWritten(list, edit, io.newId);
    StepWrites(rows, op, io);
    assert row.None? == edit.Remove?;
    if Read(op, io) {
      assert Spared(rows, edit, after);
    } else {
      assert Bystanders(list, edit) == [];
      if Bystanders(rows, edit) == [] {
        assert Spared(rows, edit, after);
      } else if Spared(rows, edit, after) {
        var other: Option<Row> :| other.None? == edit.Remove? && Written(after, other, Bystanders(rows, edit));
        WrittenLength(after, row, Bystanders(list, edit));
        WrittenLength(after, other, Bystanders(rows, edit));
      }
    }
  }

  lemma WrittenLength(after: seq<Row>, row: Option<Row>, others: seq<Row>)
    requires Written(after, row, others)
    ensures |after| == |others| + if row.Some? then 1 else 0
  {
  }

  /** When the read fails and the save works, a removal empties the table and an upsert leaves its own row only. */
  lemma FailedLoadClears(rows: seq<Row>, id: Bytes, title: Bytes, url: Bytes, io: Io)
    requires !io.loadOk && io.saveOk && Norm(url) != []
    ensures Apply(rows, Remove(id), io) == []
    ensures Apply(rows, Upsert(title, url), io) == [Row(io.newId, title, Norm(url), None, false, None, None)]
  {
    UpsertIntoEmpty(title, Norm(url), io.newId);
  }

  lemma UpsertIntoEmpty(title: Bytes, n: Bytes, newId: Bytes)
    requires n != []
    ensures var r := Row(newId, title, n, None, false, None, None);
            Upserted([], title, n, newId) == Some([r]) && Storable([r])
  {
    var r := Row(newId, title, n, None, false, None, None);
    assert Find([], Url(n), 0) == None;
    assert [] + [r] == [r] && [r][..0] == [];
  }

  /** When a relabelling finds its row but the second read fails, one new, unpaired row is all that is left. */
  lemma FailedReloadClears(rows: seq<Row>, k: nat, title: Bytes, io: Io)
    requires Storable(rows) && k < |rows| && Norm(rows[k].url) != [] && Trim(title) != []
    requires io.loadOk && !io.reloadOk && io.saveOk
    ensures Apply(rows, SetLabel(rows[k].id, title), io)
            == [Row(io.newId, Trim(title), Norm(rows[k].url), None, false, None, None)]
  {
    FindIdIs(rows, k);
    assert Resolved(rows, SetLabel(rows[k].id, title), io) == Upsert(Trim(title), rows[k].url);
    UpsertIntoEmpty(Trim(title), Norm(rows[k].url), io.newId);
  }

  lemma {:induction false} IdsDiffer(rows: seq<Row>, i: nat, j: nat)
    requires Storable(rows) && i < j < |rows|
    ensures rows[i].id != rows[j].id
  {
    var front := rows[..|rows| - 1];
    if j < |rows| - 1 {
      IdsDiffer(front, i, j);
    } else if rows[i].id == rows[j].id {
      HasAt(front, Id(rows[j].id), i);
    }
  }

  lemma FindIdIs(rows: seq<Row>, k: nat)
    requires Storable(rows) && k < |rows|
    ensures Find(rows, Id(rows[k].id), 0) == Some(k)
  {
    var i := Find(rows, Id(rows[k].id), 0).value;
    if i < k {
      IdsDiffer(rows, i, k);
    }
  }

  /** An upsert relabels the first row for the URL, or adds an unpaired one. */
  lemma UpsertWrites(rows: seq<Row>, title: Bytes, url: Bytes, io: Io)
    requires Storable(rows) && Succeeds(rows, Upsert(title, url), io)
    ensures var list, n := Loaded(rows, io.loadOk), Norm(url);
            var s := Select(list, Url(n));
            var row := if s != [] then s[0].(title := title) else Row(io.newId, title, n, None, false, None, None);
            Written(Apply(rows, Upsert(title, url), io), Some(row), DropFirst(list, Url(n)))
  {
    StepWrites(rows, Upsert(title, url), io);
  }

  /** The id an upsert returns is that of the row it relabelled or added, and of no other row. */
  lemma UpsertReturns(rows: seq<Row>, title: Bytes, url: Bytes, io: Io) returns (k: nat)
    requires Storable(rows) && Succeeds(rows, Upsert(title, url), io)
    ensures var list, n, after := Loaded(rows, io.loadOk), Norm(url), Apply(rows, Upsert(title, url), io);
            var s, id := Select(list, Url(n)), UpsertId(list, n, io.newId);
            && k < |after| && after[k].id == id
            && after[k] == (if s != [] then s[0].(title := title) else Row(io.newId, title, n, None, false, None, None))
            && forall j :: 0 <= j < |after| && j != k ==> after[j].id != id
  {
    var list, n, after := Loaded(rows, io.loadOk), Norm(url), Apply(rows, Upsert(title, url), io);
    FindSelects(list, Url(n));
    UpsertWrites(rows, title, url, io);
    var row, others := UpsertRow(list, title, n, io.newId), DropFirst(list, Url(n));
    k := WrittenOnce(after, row, others);
  }

  lemma WrittenOnce(after: seq<Row>, r: Row, others: seq<Row>) returns (k: nat)
    requires Storable(after) && Written(after, Some(r), others)
    ensures k < |after| && after[k] == r && forall j :: 0 <= j < |after| && j != k ==> after[j].id != r.id
  {
    var at :| 0 <= at <= |others| && after == Inserted(others, at, r);
    k := at;
    StorableIff(after);
  }

  /** A pairing puts the key on the first row for the URL, or adds a paired one. */
  lemma PairingWrites(rows: seq<Row>, url: Bytes, key: Bytes, io: Io)
    requires Storable(rows) && Succeeds(rows, Pair(url, key), io)
    ensures var list, n := Loaded(rows, io.loadOk), Norm(url);
            var s := Select(list, Url(n));
            var row := if s != [] then s[0].(paired := true, pubkey := Some(key))
                       else Row(io.newId, n, n, Some(key), true, None, None);
            Written(Apply(rows, Pair(url, key), io), Some(row), DropFirst(list, Url(n)))
  {
    StepWrites(rows, Pair(url, key), io);
  }

  /** Relabelling by id, with both reads working, relabels the first row for that row's URL, which in a unique table is
      the row itself. */
  lemma LabelWrites(rows: seq<Row>, k: nat, title: Bytes, io: Io)
    requires Storable(rows) && k < |rows| && io.loadOk && io.reloadOk
    requires Succeeds(rows, SetLabel(rows[k].id, title), io)
    ensures var t := Url(Norm(rows[k].url));
            && Select(rows, t) != []
            && Written(Apply(rows, SetLabel(rows[k].id, title), io), Some(Select(rows, t)[0].(title := Trim(title))),
                       DropFirst(rows, t))
            && (Unique(rows) ==> Select(rows, t)[0] == rows[k])
  {
    StepWrites(rows, SetLabel(rows[k].id, title), io);
    FindIdIs(rows, k);
    var t := Url(Norm(rows[k].url));
    HasAt(rows, t, k);
    FindSelects(rows, t);
    if Unique(rows) {
      OneIndex(rows, Norm(rows[k].url), k, Find(rows, t, 0).value);
    }
  }

  lemma {:induction false} OneIndex(rows: seq<Row>, n: Bytes, i: nat, j: nat)
    requires Unique(rows) && i < |rows| && j < |rows| && Norm(rows[i].url) == n == Norm(rows[j].url)
    ensures i == j
  {
    var last := |rows| - 1;
    var front := rows[..last];
    if i < last && j < last {
      OneIndex(front, n, i, j);
    } else if i < last {
      HasAt(front, Url(n), i);
    } else if j < last {
      HasAt(front, Url(n), j);
    }
  }

  /** A migration leaves the rows for neither URL, in order, and one row for the new URL, which holds the key and keeps
      the old row's id and label if there was one.  So the new URL has a row exactly when it is clean, and then a
      different old one has none. */
  lemma MigrationMoves(rows: seq<Row>, oldUrl: Bytes, newUrl: Bytes, key: Bytes, io: Io)
    requires Storable(rows) && Succeeds(rows, Migrate(oldUrl, newUrl, key), io)
    ensures var list, o, n := Loaded(rows, io.loadOk), Norm(oldUrl), Norm(newUrl);
            var s := Select(list, Url(o));
            var row := if s != [] then s[0].(url := n, paired := true, pubkey := Some(Trim(key)))
                       else Row(io.newId, n, n, Some(Trim(key)), true, None, None);
            Written(Apply(rows, Migrate(oldUrl, newUrl, key), io), Some(row), Drop(list, Either(o, n)))
    ensures var after, o, n := Apply(rows, Migrate(oldUrl, newUrl, key), io), Norm(oldUrl), Norm(newUrl);
            (Has(after, Url(n)) <==> Norm(n) == n) && (Has(after, Url(o)) <==> Norm(n) == o)
  {
    var op := Migrate(oldUrl, newUrl, key);
    StepWrites(rows, op, io);
    MovedUrls(Apply(rows, op, io), RowWritten(Loaded(rows, io.loadOk), op, io.newId).value, Loaded(rows, io.loadOk),
              Norm(oldUrl), Norm(newUrl));
  }

  lemma MovedUrls(after: seq<Row>, r: Row, rows: seq<Row>, o: Bytes, n: Bytes)
    requires Written(after, Some(r), Drop(rows, Either(o, n))) && r.url == n
    ensures (Has(after, Url(n)) <==> Norm(n) == n) && (Has(after, Url(o)) <==> Norm(n) == o)
  {
    var others := Drop(rows, Either(o, n));
    var k :| 0 <= k <= |others| && after == Inserted(others, k, r);
    HasInserted(others, k, r, Url(n));
    HasInserted(others, k, r, Url(o));
    HasDrop(rows, Either(o, n), Url(n));
    HasDrop(rows, Either(o, n), Url(o));
  }

  // ---- When an operation succeeds ----

  /** The id drawn and the stored URL are new to the table. */
  predicate Free(rows: seq<Row>, id: Bytes, url: Bytes) {
    !Has(rows, Id(id)) && !Has(rows, Raw(url))
  }

  predicate Accepted(rows: seq<Row>, edit: Op, newId: Bytes) {
    match edit
    case Upsert(_, url) => Norm(url) != [] && (Has(rows, Url(Norm(url))) || Free(rows, newId, Norm(url)))
    case Pair(url, _) => Norm(url) != [] && (Has(rows, Url(Norm(url))) || Free(rows, newId, Norm(url)))
    case Remove(_) => true
    case SetLabel(_, _) => false
    case Migrate(oldUrl, newUrl, key) =>
      var o, n, pk := Norm(oldUrl), Norm(newUrl), Trim(key);
      && pk != [] && o != [] && n != []
      && !Has(rows, Clash(n, pk))
      && !(o == n && Has(rows, Url(o)))
      && (Norm(n) == o || Norm(n) == n || !Has(rows, Raw(n)))
      && (Has(rows, Url(o)) || !Has(Drop(rows, Url(n)), Id(newId)))
  }

  /** An operation succeeds exactly when the save works, its arguments are given, the id to relabel is found, no other
      identity holds the new URL, the migration is not in place, and the schema takes the row written. */
  lemma SucceedsIff(rows: seq<Row>, op: Op, io: Io)
    requires Storable(rows)
    ensures Succeeds(rows, op, io)
            <==> io.saveOk && Accepted(List(rows, op, io), Resolved(rows, op, io), io.newId)
  {
    var list := List(rows, op, io);
    match Resolved(rows, op, io) {
      case Upsert(title, url) => UpsertAccepted(list, title, Norm(url), io.newId);
      case Pair(url, key) => PairAccepted(list, Norm(url), key, io.newId);
      case Remove(id) => StorableDrop(list, Id(id));
      case SetLabel(_, _) =>
      case Migrate(o, n, key) => MigrationAccepted(list, o, n, key, io.newId);
    }
  }

  /** A table without its first row for a URL, and with another row instead. */
  lemma ReplacedStorable(rows: seq<Row>, n: Bytes, r: Row, after: seq<Row>)
    requires Storable(rows) && Written(after, Some(r), DropFirst(rows, Url(n)))
    requires var s := Select(rows, Url(n)); s != [] ==> r.id == s[0].id && r.url == s[0].url
    ensures Storable(after) <==> Has(rows, Url(n)) || Free(rows, r.id, r.url)
  {
    SelectHas(rows, Url(n));
    WrittenValid(after, r, DropFirst(rows, Url(n)));
    if Has(rows, Url(n)) {
      FirstWritten(rows, Url(n));
      WrittenValid(rows, Select(rows, Url(n))[0], DropFirst(rows, Url(n)));
    } else {
      NothingMeets(rows, Url(n));
    }
  }

  lemma UpsertAccepted(rows: seq<Row>, title: Bytes, n: Bytes, newId: Bytes)
    requires Storable(rows)
    ensures var r := Upserted(rows, title, n, newId);
            (r.Some? && Storable(r.value)) <==> n != [] && (Has(rows, Url(n)) || Free(rows, newId, n))
  {
    if n != [] {
      SelectHas(rows, Url(n));
      UpsertedWrites(rows, title, n, newId);
      ReplacedStorable(rows, n, UpsertRow(rows, title, n, newId), Upserted(rows, title, n, newId).value);
    }
  }

  lemma PairAccepted(rows: seq<Row>, n: Bytes, key: Bytes, newId: Bytes)
    requires Storable(rows)
    ensures var r := WithPairing(rows, n, key, newId);
            (r.Some? && Storable(r.value)) <==> n != [] && (Has(rows, Url(n)) || Free(rows, newId, n))
  {
    if n != [] {
      SelectHas(rows, Url(n));
      PairedWrites(rows, n, key, newId);
      ReplacedStorable(rows, n, PairRow(rows, n, key, newId), WithPairing(rows, n, key, newId).value);
    }
  }

  lemma MigrationAccepted(rows: seq<Row>, oldUrl: Bytes, newUrl: Bytes, key: Bytes, newId: Bytes)
    requires Storable(rows)
    ensures var op := Migrate(oldUrl, newUrl, key);
            var r := Edited(rows, op, newId);
            (r.Some? && Storable(r.value)) <==> Accepted(rows, op, newId)
  {
    var o, n, pk := Norm(oldUrl), Norm(newUrl), Trim(key);
    MigratedWrites(rows, o, n, key, newId);
    var r := Migrated(rows, o, n, key, newId);
    if r.Some? {
      var others, row := Drop(rows, Either(o, n)), MovedRow(rows, o, n, pk, newId);
      WrittenValid(r.value, row, others);
      StorableDrop(rows, Either(o, n));
      HasDrop(rows, Either(o, n), Raw(n));
      SelectHas(rows, Url(o));
      if Has(rows, Url(o)) {
        OldIdGone(rows, o, n);
      } else {
        NoOldRow(rows, o, n, []);
      }
    }
  }

  lemma OldIdGone(rows: seq<Row>, o: Bytes, n: Bytes)
    requires Storable(rows) && Has(rows, Url(o)) && o != n
    ensures Select(rows, Url(o)) != [] && !Has(Drop(rows, Either(o, n)), Id(Select(rows, Url(o))[0].id))
  {
    SelectHas(rows, Url(o));
    var first := Select(rows, Url(o))[0];
    var i := RestSplits(rows, o, n, first.id);
    StorableDrop(rows, Cleared(o, n, first.id));
    InsertedStorable(Drop(rows, Either(o, n)), i, first);
  }

  // ---- When the table stays unique ----

  predicate KeepsUnique(rows: seq<Row>, edit: Op) {
    match edit
    case Upsert(_, url) => Has(rows, Url(Norm(url))) || !Has(rows, Url(Norm(Norm(url))))
    case Pair(url, _) => Has(rows, Url(Norm(url))) || !Has(rows, Url(Norm(Norm(url))))
    case Migrate(oldUrl, newUrl, _) =>
      var o, n := Norm(oldUrl), Norm(newUrl);
      Norm(n) == n || Norm(n) == o || !Has(rows, Url(Norm(n)))
    case _ => true
  }

  /** The operation fails, is a relabelling, or writes no new URL whose own normal form is taken by a row it does not
      replace. */
  predicate Safe(rows: seq<Row>, op: Op, io: Io) {
    Succeeds(rows, op, io) ==> op.SetLabel? || KeepsUnique(Loaded(rows, io.loadOk), op)
  }

  /** An operation keeps a valid table valid exactly when it is safe. */
  lemma StepKeepsValidIff(rows: seq<Row>, op: Op, io: Io)
    requires Valid(rows)
    ensures Valid(Apply(rows, op, io)) <==> Safe(rows, op, io)
  {
    if Succeeds(rows, op, io) {
      var list, edit, after := List(rows, op, io), Resolved(rows, op, io), Apply(rows, op, io);
      StepWrites(rows, op, io);
      BystandersUnique(list, edit);
      if !edit.Remove? {
        WrittenValid(after, RowWritten(list, edit, io.newId).value, Bystanders(list, edit));
        UrlTaken(list, edit, io.newId);
        LabelSafe(rows, op, io);
      }
    }
  }

  /** A relabelling upserts a URL that has a row, or, when its second read fails, into an empty list. */
  lemma LabelSafe(rows: seq<Row>, op: Op, io: Io)
    ensures op.SetLabel? ==> KeepsUnique(List(rows, op, io), Resolved(rows, op, io))
  {
    if op.SetLabel? {
      match Find(Loaded(rows, io.loadOk), Id(op.id), 0) {
        case None =>
        case Some(i) => HasAt(rows, Url(Norm(rows[i].url)), i);
      }
    }
  }

  lemma BystandersUnique(rows: seq<Row>, edit: Op)
    requires Unique(rows)
    ensures Unique(Bystanders(rows, edit))
  {
    match edit {
      case Upsert(_, url) => UniqueDropFirst(rows, Norm(url));
      case Pair(url, _) => UniqueDropFirst(rows, Norm(url));
      case Remove(id) => UniqueDrop(rows, Id(id));
      case SetLabel(_, _) =>
      case Migrate(o, n, _) => UniqueDrop(rows, Either(Norm(o), Norm(n)));
    }
  }

  lemma UniqueDropFirst(rows: seq<Row>, n: Bytes)
    requires Unique(rows)
    ensures Unique(DropFirst(rows, Url(n))) && !Has(DropFirst(rows, Url(n)), Url(n))
  {
    FirstIsOnly(rows, n);
    UniqueDrop(rows, Url(n));
    HasDrop(rows, Url(n), Url(n));
  }

  /** Whether a bystander has the normalised URL of the row written. */
  lemma UrlTaken(rows: seq<Row>, op: Op, newId: Bytes)
    requires Unique(rows) && RowWritten(rows, op, newId).Some?
    ensures Has(Bystanders(rows, op), Url(Norm(RowWritten(rows, op, newId).value.url))) <==> !KeepsUnique(rows, op)
  {
    match op {
      case Upsert(_, url) => PutTaken(rows, Norm(url));
      case Pair(url, _) => PutTaken(rows, Norm(url));
      case Migrate(oldUrl, newUrl, _) =>
        var o, n := Norm(oldUrl), Norm(newUrl);
        HasDrop(rows, Either(o, n), Url(Norm(n)));
    }
  }

  lemma PutTaken(rows: seq<Row>, n: Bytes)
    requires Unique(rows)
    ensures var s := Select(rows, Url(n));
            if Has(rows, Url(n)) then s != [] && Norm(s[0].url) == n && !Has(DropFirst(rows, Url(n)), Url(n))
            else s == [] && DropFirst(rows, Url(n)) == rows
  {
    SelectHas(rows, Url(n));
    if Has(rows, Url(n)) {
      UniqueDropFirst(rows, n);
    } else {
      NothingMeets(rows, Url(n));
    }
  }

  // ---- Runs ----

  function ApplyAll(rows: seq<Row>, ops: seq<Op>, ios: seq<Io>): seq<Row>
    requires |ops| == |ios|
  {
    if ops == [] then rows
    else Apply(ApplyAll(rows, ops[..|ops| - 1], ios[..|ios| - 1]), ops[|ops| - 1], ios[|ios| - 1])
  }

  /** The table is valid after every operation of a run. */
  predicate AllValid(rows: seq<Row>, ops: seq<Op>, ios: seq<Io>)
    requires |ops| == |ios|
  {
    Valid(ApplyAll(rows, ops, ios)) && (ops != [] ==> AllValid(rows, ops[..|ops| - 1], ios[..|ios| - 1]))
  }

  predicate AllSafe(rows: seq<Row>, ops: seq<Op>, ios: seq<Io>)
    requires |ops| == |ios|
  {
    ops != [] ==>
      var n := |ops| - 1;
      AllSafe(rows, ops[..n], ios[..n]) && Safe(ApplyAll(rows, ops[..n], ios[..n]), ops[n], ios[n])
  }

  /** Over every run, whatever the database does, the table is valid all the way exactly when every operation is safe in
      the table it finds. */
  lemma {:induction false} RunValidIff(rows: seq<Row>, ops: seq<Op>, ios: seq<Io>)
    requires Valid(rows) && |ops| == |ios|
    ensures AllValid(rows, ops, ios) <==> AllSafe(rows, ops, ios)
  {
    if ops == [] {
    } else {
      var n := |ops| - 1;
      RunValidIff(rows, ops[..n], ios[..n]);
      var before := ApplyAll(rows, ops[..n], ios[..n]);
      if Valid(before) {
        StepKeepsValidIff(before, ops[n], ios[n]);
      }
    }
  }

  // ---- Normal forms ----

  /** A URL whose normal form is in normal form: no white space is left in front of the slashes cut off. */
  predicate Clean(url: Bytes) {
    Norm(Norm(url)) == Norm(url)
  }

  lemma {:induction false} TrimSlashesPrefix(t: Bytes)
    ensures var r := TrimSlashes(t); r <= t && (r != [] ==> r[|r| - 1] != 47)
  {
    if t != [] && t[|t| - 1] == 47 {
      TrimSlashesPrefix(t[..|t| - 1]);
    }
  }

  /** A URL is clean exactly when its normal form does not end in white space. */
  lemma CleanIff(url: Bytes)
    ensures Clean(url) <==> Trimmed(Norm(url))
  {
    var t, n := Trim(url), Norm(url);
    TrimTrims(url);
    TrimSlashesPrefix(t);
    if Trimmed(n) {
      TrimFixed(n);
    } else {
      // n starts like t, so it ends in white space, which trimming shortens
      assert n != [] && n[0] == t[0] && IsSpace(n[|n| - 1]);
      assert TrimStart(n) == n;
      TrimEndDone(n);
      assert |Trim(n)| < |n| by {
        TrimEndDone(n[..|n| - 1]);
      }
      TrimSlashesPrefix(Trim(n));
    }
  }

  predicate CleanOp(op: Op) {
    match op
    case Upsert(_, url) => Clean(url)
    case Pair(url, _) => Clean(url)
    case Migrate(_, n, _) => Clean(n)
    case _ => true
  }

  /** Over every run of operations with clean URLs, whatever the database does, no two rows share a normalised URL.
      Relabelling is always safe. */
  lemma {:induction false} RunKeepsValid(rows: seq<Row>, ops: seq<Op>, ios: seq<Io>)
    requires Valid(rows) && |ops| == |ios|
    requires forall i :: 0 <= i < |ops| ==> CleanOp(ops[i])
    ensures Valid(ApplyAll(rows, ops, ios))
  {
    if ops == [] {
    } else {
      var n := |ops| - 1;
      RunKeepsValid(rows, ops[..n], ios[..n]);
      StepKeepsValidIff(ApplyAll(rows, ops[..n], ios[..n]), ops[n], ios[n]);
    }
  }

  /** "x /" is stored as "x ", which stands for "x": with "x" stored already, an upsert and a pairing of it both give
      the URL a second row. */
  lemma UncleanUrlDuplicates(title: Bytes, key: Bytes, a: Bytes, b: Bytes)
    requires a != b
    ensures var rows := [Row(a, title, [120], None, false, None, None)];
            var io := Io(true, true, true, b);
            && Valid(rows) && !Clean([120, 32, 47])
            && !Unique(Apply(rows, Upsert(title, [120, 32, 47]), io))
            && !Unique(Apply(rows, Pair([120, 32, 47], key), io))
  {
    var rows := [Row(a, title, [120], None, false, None, None)];
    var io := Io(true, true, true, b);
    NormSample();
    NotTwice(rows[0], b);
    UniqueLost(rows, Upsert(title, [120, 32, 47]), io);
    UniqueLost(rows, Pair([120, 32, 47], key), io);
  }

  lemma OneRow(r: Row, t: Test)
    ensures Valid([r]) && (Has([r], t) <==> Meets(r, t))
  {
    assert [r][..0] == [];
  }

  lemma UniqueLost(rows: seq<Row>, op: Op, io: Io)
    requires Valid(rows) && !op.SetLabel? && io.saveOk && io.loadOk
    requires Accepted(rows, op, io.newId) && !KeepsUnique(rows, op)
    ensures !Unique(Apply(rows, op, io))
  {
    SucceedsIff(rows, op, io);
    StepKeepsValidIff(rows, op, io);
  }

  lemma NormSample()
    ensures Norm([120, 32, 47]) == [120, 32] && Norm([120, 32]) == [120] && Norm([120]) == [120] && Norm([121]) == [121]
  {
    assert TrimEnd([120, 32, 47]) == [120, 32, 47];
    assert [120, 32, 47][..2] == [120, 32];
    assert TrimSlashes([120, 32]) == [120, 32];
    assert [120, 32][..1] == [120];
    assert TrimEnd([120]) == [120];
    assert TrimEnd([120, 32]) == [120];
    assert TrimEnd([121]) == [121];
  }

  // ---- The identity test of a migration ----

  /** After a migration no row for the new URL belongs to another identity.  But the row written stands for the normal
      form of the new URL's normal form, and a row of another identity for that one is missed exactly when the two
      differ, it is not the old URL, and there was such a row. */
  lemma MigrationConflict(rows: seq<Row>, oldUrl: Bytes, newUrl: Bytes, key: Bytes, io: Io)
    requires Storable(rows) && Succeeds(rows, Migrate(oldUrl, newUrl, key), io)
    ensures var list, after := Loaded(rows, io.loadOk), Apply(rows, Migrate(oldUrl, newUrl, key), io);
            var o, n, pk := Norm(oldUrl), Norm(newUrl), Trim(key);
            && !Has(after, Clash(n, pk))
            && (Has(after, Clash(Norm(n), pk)) <==> Norm(n) != n && Norm(n) != o && Has(list, Clash(Norm(n), pk)))
  {
    var op := Migrate(oldUrl, newUrl, key);
    var list, after := Loaded(rows, io.loadOk), Apply(rows, op, io);
    var o, n, pk := Norm(oldUrl), Norm(newUrl), Trim(key);
    StepWrites(rows, op, io);
    var r, others := RowWritten(list, op, io.newId).value, Drop(list, Either(o, n));
    TrimTrims(key);
    WrittenClash(after, r, others, n, pk);
    WrittenClash(after, r, others, Norm(n), pk);
    OthersClash(list, o, n, n, pk);
    OthersClash(list, o, n, Norm(n), pk);
  }

  lemma WrittenClash(after: seq<Row>, r: Row, others: seq<Row>, m: Bytes, pk: Bytes)
    requires Written(after, Some(r), others) && r.pubkey == Some(pk) && Trim(pk) == pk
    ensures Has(after, Clash(m, pk)) <==> Has(others, Clash(m, pk))
  {
    var k :| 0 <= k <= |others| && after == Inserted(others, k, r);
    HasInserted(others, k, r, Clash(m, pk));
  }

  lemma OthersClash(rows: seq<Row>, o: Bytes, n: Bytes, m: Bytes, pk: Bytes)
    ensures Has(Drop(rows, Either(o, n)), Clash(m, pk)) <==> m != o && m != n && Has(rows, Clash(m, pk))
  {
    HasDrop(rows, Either(o, n), Clash(m, pk));
  }

  /** "x" belongs to identity 2; a migration of "y" to "x /" for identity 1 succeeds, and "x" then has two rows of
      different identities. */
  lemma MissedConflict(title: Bytes, a: Bytes, b: Bytes)
    requires a != b
    ensures var rows := [Row(a, title, [120], Some([50]), true, None, None)];
            var op, io := Migrate([121], [120, 32, 47], [49]), Io(true, true, true, b);
            var after := Apply(rows, op, io);
            Valid(rows) && Succeeds(rows, op, io) && !Unique(after) && Has(after, Clash([120], [49]))
  {
    var r := Row(a, title, [120], Some([50]), true, None, None);
    var op, io := Migrate([121], [120, 32, 47], [49]), Io(true, true, true, b);
    NormSample();
    NotTwice(r, b);
    ConflictTaken(r, b);
    UniqueLost([r], op, io);
    SucceedsIff([r], op, io);
    MigrationConflict([r], [121], [120, 32, 47], [49], io);
  }

  /** A table that holds "x" has room for "x ", which stands for the same URL. */
  lemma NotTwice(r: Row, b: Bytes)
    requires r.url == [120] && r.id != b
    ensures Valid([r]) && Free([r], b, [120, 32]) && !Has([r], Url([120, 32])) && Has([r], Url([120]))
  {
    NormSample();
    OneRow(r, Id(b));
    OneRow(r, Raw([120, 32]));
    OneRow(r, Url([120, 32]));
    OneRow(r, Url([120]));
  }

  lemma ConflictTaken(r: Row, b: Bytes)
    requires r.url == [120] && r.id != b && r.paired && r.pubkey == Some([50])
    ensures var op := Migrate([121], [120, 32, 47], [49]);
            Accepted([r], op, b) && !KeepsUnique([r], op) && Trim([49]) == [49] && Has([r], Clash([120], [49]))
  {
    NormSample();
    assert Trim([49]) == [49] && Trim([50]) == [50] by {
      assert Trimmed([49]) && Trimmed([50]);
      TrimFixed([49]);
      TrimFixed([50]);
    }
    NotTwice(r, b);
    OneRow(r, Clash([120], [49]));
    OneRow(r, Clash([120, 32], [49]));
    OneRow(r, Url([121]));
    HasDrop([r], Url([120, 32]), Id(b));
  }

  /** Migrating a bookmark to the URL it already has always fails. */
  lemma MigrationInPlaceFails(rows: seq<Row>, oldUrl: Bytes, newUrl: Bytes, key: Bytes, io: Io)
    requires Storable(rows) && io.loadOk && Norm(oldUrl) == Norm(newUrl) && Has(rows, Url(Norm(oldUrl)))
    ensures !Succeeds(rows, Migrate(oldUrl, newUrl, key), io)
  {
    SucceedsIff(rows, Migrate(oldUrl, newUrl, key), io);
  }
}

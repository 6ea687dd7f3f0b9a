/** The directory page of response.c: reading the entries, and the rows of the table. */
module Listing {
  import opened Seqs
  import opened CStrings
  import opened Paths
  import opened RowInfo
  import opened Order

  const TYPE_ALL: int := 0
  const TYPE_DIR: int := 4
  const TYPE_FILE: int := 8

  /** One result of readdir. */
  datatype Dirent = Dirent(name: EntryName, kind: int)

  predicate IsDotPath(path: string) {
    path == "." || path == ".."
  }

  function KindOf(e: Dirent): KindName {
    if e.kind == TYPE_FILE then "File" else "Folder"
  }

  /** The row that is meant for an entry of directory `req`. */
  function Meant(e: Dirent, req: string): Row {
    Row(Link(req, e.name), e.name, KindOf(e))
  }

  /** The row that it gets. */
  function RowOf(e: Dirent, req: string): Row {
    Stored(Link(req, e.name), e.name, KindOf(e))
  }

  /** The link fits its field, or has only the name beyond it, which is what the name's field holds. */
  predicate LinkFits(e: Dirent, req: string) {
    |Link(req, e.name)| < LINK_SIZE || (|req| == LINK_SIZE - 1 && |e.name| < NAME_SIZE)
  }

  predicate RowFits(e: Dirent, req: string) {
    LinkFits(e, req) && |e.name| < NAME_SIZE
  }

  /** An entry of the wanted type, not a dot entry, whose file stat finds; `stat` says which paths exist. */
  predicate Accepted(e: Dirent, kind: int, dir: string, stat: string -> bool) {
    (kind == TYPE_ALL || kind == e.kind) && !IsDotPath(e.name) && stat(AbsPath(e.name, dir))
  }

  /** The rows of the accepted entries, in the order of `entries`. */
  function Rows(entries: seq<Dirent>, kind: int, req: string, root: string, stat: string -> bool): seq<Row> {
    if entries == [] then []
    else
      var e := entries[|entries| - 1];
      Rows(entries[..|entries| - 1], kind, req, root, stat) +
      if Accepted(e, kind, AbsPath(req, root), stat) then [RowOf(e, req)] else []
  }

  /** The links of the accepted entries are shorter than `bound`. */
  ghost predicate LinksBelow(bound: nat, entries: seq<Dirent>, kind: int, req: string, root: string,
                             stat: string -> bool)
  {
    forall i :: 0 <= i < |entries| && Accepted(entries[i], kind, AbsPath(req, root), stat) ==>
                  |Link(req, entries[i].name)| < bound
  }

  ghost predicate DistinctEntries(entries: seq<Dirent>) {
    forall i, j :: 0 <= i < j < |entries| ==> entries[i].name != entries[j].name
  }

  // ---------- rows as meant, and as they are ----------

  lemma AsMeant(e: Dirent, req: string)
    requires '/' !in e.name
    ensures RowOf(e, req).link == Link(req, e.name) <==> LinkFits(e, req)
    ensures RowOf(e, req) == Meant(e, req) <==> RowFits(e, req)
  {
    var (link, name) := (Link(req, e.name), e.name);
    StoredAsGiven(link, name, KindOf(e));
    if LINK_SIZE <= |link| {
      assert link[|req|] == '/' && link[|req| + 1..] == name;
      assert LINK_SIZE <= |req| ==> link[LINK_SIZE..][|req| - LINK_SIZE] == '/';
    }
  }

  /** An entry gets the row that is meant exactly if name and link fit; and its link is the one meant, and leads to the
      entry, exactly if the link fits. */
  lemma RowAsMeant(e: Dirent, req: string, root: string)
    requires IsName(e.name) && (req == "/" || (req != "" && req[|req| - 1] != '/'))
    ensures RowOf(e, req) == Meant(e, req) <==> RowFits(e, req)
    ensures RowOf(e, req).link == Link(req, e.name) <==> LinkFits(e, req)
    ensures AbsPath(RowOf(e, req).link, root) == AbsPath(e.name, AbsPath(req, root)) <==> LinkFits(e, req)
  {
    AsMeant(e, req);
    LinkReachesEntry(req, e.name, root);
    SameFile(RowOf(e, req).link, Link(req, e.name), root);
  }

  lemma RowNamesAreFree(e: Dirent, req: string)
    requires '/' !in e.name
    ensures '/' !in RowOf(e, req).name && '/' !in Meant(e, req).name
  {
  }

  /** Rows of entries with different names have different names. */
  lemma NamesDiffer(d: Dirent, e: Dirent, req: string)
    requires RowOf(d, req).name == RowOf(e, req).name
    ensures d.name == e.name
  {
    if |d.name| == |e.name| == NAME_SIZE {
      assert d.name == RowOf(d, req).name[..NAME_SIZE] == e.name;
    }
  }

  /** A file of 255 characters, and one in a directory far down, do not get the rows that are meant. */
  lemma RowsNotAsMeant()
    ensures var e := Dirent(seq(255, _ => 'a'), TYPE_FILE);
            RowOf(e, "/") == Row("/" + e.name, e.name + "File", "File") != Meant(e, "/")
    ensures var (e, req) := (Dirent(seq(200, _ => 'b'), TYPE_FILE), seq(1900, i => if i == 0 then '/' else 'a'));
            RowOf(e, req).link == req + "/" + e.name[..147] + e.name != Link(req, e.name)
  {
    var name := seq(255, _ => 'a');
    assert name[..NAME_SIZE] == name;
    var (e, req) := (Dirent(seq(200, _ => 'b'), TYPE_FILE), seq(1900, i => if i == 0 then '/' else 'a'));
    assert Link(req, e.name)[..LINK_SIZE] == req + "/" + e.name[..147];
    assert |RowOf(e, req).link| == 2248;
  }

  // ---------- reading the entries ----------

  /** MakeEntryItem, without the size: fills the row if stat finds the file. A link may leave its field, but the model
      ends where it leaves the row. */
  method MakeEntryItem(data: array<Row>, at: nat, e: Dirent, dir: CString, req: CString, stat: string -> bool)
    returns (ret: bool, inside: bool)
    requires at < data.Length && dir != ""
    modifies data
    ensures ret == stat(AbsPath(e.name, dir))
    ensures inside <==> !ret || |Link(req, e.name)| < ROW_SIZE
    ensures ret && inside ==> data[at] == RowOf(e, req)
    ensures forall k :: 0 <= k < data.Length && k != at ==> data[k] == old(data[k])
  {
    NulFree(e.name, dir);
    NulFree(req, e.name);
    var buf := GetAbsPath(e.name, dir);
    var path := Text(buf, 0, AbsPath(e.name, dir));
    ret := stat(path);
    inside := !ret || |req| + (if req == "/" then 0 else 1) + |e.name| < ROW_SIZE;
    if ret && inside {
      var item := new char[ROW_SIZE];
      MakeLink(item, req, e.name);
      SetNameAndKind(item, Link(req, e.name), e.name, KindOf(e));
      data[at] := ReadRow(item, RowOf(e, req));
    }
  }

  /** realloc of the rows to `max` of them. */
  method Grow(data: array<Row>, len: nat, max: nat) returns (ret: array<Row>)
    requires len <= data.Length <= max
    ensures fresh(ret) && ret.Length == max && ret[..len] == data[..len]
  {
    ret := new Row[max](_ => Row("", "", "File"));
    for i := 0 to len
      invariant ret[..i] == data[..i]
    {
      ret[i] := data[i];
    }
  }

  /** One entry: it is counted if it is of the wanted type, not a dot entry, and its row could be made. */
  method AddEntry(data: array<Row>, len: nat, e: Dirent, kind: int, ap: CString, req: CString, stat: string -> bool)
    returns (len': nat, inside: bool)
    requires len < data.Length && ap != ""
    modifies data
    ensures len' <= data.Length
    ensures inside <==> (Accepted(e, kind, ap, stat) ==> |Link(req, e.name)| < ROW_SIZE)
    ensures inside ==> data[..len'] == old(data[..len]) + if Accepted(e, kind, ap, stat) then [RowOf(e, req)] else []
  {
    len', inside := len, true;
    if kind == TYPE_ALL || kind == e.kind {
      if !IsDotPath(e.name) {
        var made;
        made, inside := MakeEntryItem(data, len, e, ap, req, stat);
        if made {
          len' := len + 1;
        }
      }
    }
  }

  lemma NoRows(kind: int, req: string, root: string, stat: string -> bool)
    ensures Rows([], kind, req, root, stat) == []
  {
  }

  lemma RowsNext(entries: seq<Dirent>, i: nat, kind: int, req: string, root: string, stat: string -> bool)
    requires i < |entries|
    ensures Rows(entries[..i + 1], kind, req, root, stat) ==
            Rows(entries[..i], kind, req, root, stat) +
            if Accepted(entries[i], kind, AbsPath(req, root), stat) then [RowOf(entries[i], req)] else []
  {
    assert entries[..i + 1][..i] == entries[..i];
  }

  lemma BelowNext(bound: nat, entries: seq<Dirent>, i: nat, kind: int, req: string, root: string,
                  stat: string -> bool)
    requires i < |entries| && LinksBelow(bound, entries[..i], kind, req, root, stat)
    ensures var below := Accepted(entries[i], kind, AbsPath(req, root), stat) ==> |Link(req, entries[i].name)| < bound;
            && (below ==> LinksBelow(bound, entries[..i + 1], kind, req, root, stat))
            && (!below ==> !LinksBelow(bound, entries, kind, req, root, stat))
  {
    hide Link, Accepted;
    assert forall k :: 0 <= k < i ==> entries[..i + 1][k] == entries[..i][k];
  }

  /** The readdir loop of GetEntry: `data` has room for `max` rows, `len` of which are used. The model ends where a
      link leaves its row. */
  method ReadEntries(entries: seq<Dirent>, kind: int, ap: CString, req: CString, ghost root: CString,
                     stat: string -> bool)
    returns (data: array<Row>, len: nat, inside: bool)
    requires ap == AbsPath(req, root)
    ensures fresh(data) && len <= data.Length
    ensures inside <==> LinksBelow(ROW_SIZE, entries, kind, req, root, stat)
    ensures inside ==> data[..len] == Rows(entries, kind, req, root, stat)
  {
    assert ap != "";
    hide Rows, RowOf, Link, AbsPath, Accepted;
    var step := 5;
    var max := 0;
    data := new Row[0];
    len, inside := 0, true;
    NoRows(kind, req, root, stat);
    for i := 0 to |entries|
      invariant fresh(data) && data.Length == max && len <= max
      invariant LinksBelow(ROW_SIZE, entries[..i], kind, req, root, stat)
      invariant data[..len] == Rows(entries[..i], kind, req, root, stat)
      invariant inside
    {
      RowsNext(entries, i, kind, req, root, stat);
      BelowNext(ROW_SIZE, entries, i, kind, req, root, stat);
      hide LinksBelow;
      if len == max {
        max := max + step;
        data := Grow(data, len, max);
      }
      len, inside := AddEntry(data, len, entries[i], kind, ap, req, stat);
      if !inside {
        return;
      }
    }
    assert entries[..|entries|] == entries;
  }

  /** `rows` are those of the accepted entries, sorted. */
  ghost predicate Lists(rows: seq<Row>, entries: seq<Dirent>, kind: int, req: string, root: string,
                        stat: string -> bool)
  {
    Sorted(rows) && multiset(rows) == multiset(Rows(entries, kind, req, root, stat))
  }

  ghost predicate PartBelow(bound: nat, entries: Option<seq<Dirent>>, kind: int, req: string, root: string,
                            stat: string -> bool)
  {
    entries.Some? ==> LinksBelow(bound, entries.value, kind, req, root, stat)
  }

  /** Names have at most 255 characters, so a request of at most `n` has links of at most n + 256. */
  lemma ShortRequest(n: nat, req: string, entries: Option<seq<Dirent>>, kind: int, root: string, stat: string -> bool)
    ensures |req| <= n ==> PartBelow(n + 257, entries, kind, req, root, stat)
    ensures PartBelow(n + 257, entries, kind, req, root, stat) && n + 257 <= ROW_SIZE ==>
              PartBelow(ROW_SIZE, entries, kind, req, root, stat)
  {
  }

  /** GetEntry; `entries` is None if opendir fails, and null is returned. */
  method GetEntry(entries: Option<seq<Dirent>>, kind: int, req: CString, root: CString, stat: string -> bool)
    returns (data: array?<Row>, length: nat, inside: bool)
    requires root != ""
    ensures inside <==> PartBelow(ROW_SIZE, entries, kind, req, root, stat)
    ensures |req| <= 2047 ==> inside
    ensures inside ==> (data == null <==> entries == None)
    ensures inside && data != null ==>
              fresh(data) && length <= data.Length && Lists(data[..length], entries.value, kind, req, root, stat)
  {
    ShortRequest(2047, req, entries, kind, root, stat);
    data, length, inside := null, 0, true;
    NulFree(req, root);
    var buf := GetAbsPath(req, root);
    var ap := Text(buf, 0, AbsPath(req, root));
    if entries.Some? {
      data, length, inside := ReadEntries(entries.value, kind, ap, req, root, stat);
      if inside {
        SortFileEntry(data, length);
      }
    }
  }

  // ---------- the listing is a function of the directory ----------

  lemma {:induction false} RowsAppend(xs: seq<Dirent>, ys: seq<Dirent>, kind: int, req: string, root: string,
                                      stat: string -> bool)
    ensures Rows(xs + ys, kind, req, root, stat) == Rows(xs, kind, req, root, stat) + Rows(ys, kind, req, root, stat)
  {
    if ys == [] {
      assert xs + ys == xs;
    } else {
      var most := ys[..|ys| - 1];
      assert (xs + ys)[..|xs + ys| - 1] == xs + most;
      RowsAppend(xs, most, kind, req, root, stat);
    }
  }

  lemma RemoveOne<T>(most: seq<T>, e: T, a: seq<T>, b: seq<T>)
    requires multiset(most + [e]) == multiset(a + [e] + b)
    ensures multiset(most) == multiset(a + b)
  {
    assert multiset(most) == multiset(most + [e]) - multiset{e};
    assert multiset(a + b) == multiset(a + [e] + b) - multiset{e};
  }

  lemma InsertSome<T>(most: seq<T>, some: seq<T>, a: seq<T>, b: seq<T>)
    requires multiset(most) == multiset(a + b)
    ensures multiset(most + some) == multiset(a + some + b)
  {
  }

  /** The same entries in another order give the same rows in another order. */
  lemma {:induction false} RowsPermute(xs: seq<Dirent>, ys: seq<Dirent>, kind: int, req: string, root: string,
                                       stat: string -> bool)
    requires multiset(xs) == multiset(ys)
    ensures multiset(Rows(xs, kind, req, root, stat)) == multiset(Rows(ys, kind, req, root, stat))
    decreases |xs|
  {
    if xs == [] {
      assert |ys| == |multiset(ys)| == 0;
    } else {
      hide Rows;
      var (most, e) := (xs[..|xs| - 1], xs[|xs| - 1]);
      assert xs == most + [e] && e in multiset(ys);
      var k :| 0 <= k < |ys| && ys[k] == e;
      var (a, b) := (ys[..k], ys[k + 1..]);
      assert ys == a + [e] + b;
      RemoveOne(most, e, a, b);
      RowsPermute(most, a + b, kind, req, root, stat);
      RowsAppend(most, [e], kind, req, root, stat);
      RowsAppend(a, [e], kind, req, root, stat);
      RowsAppend(a + [e], b, kind, req, root, stat);
      RowsAppend(a, b, kind, req, root, stat);
      InsertSome(Rows(most, kind, req, root, stat), Rows([e], kind, req, root, stat),
                 Rows(a, kind, req, root, stat), Rows(b, kind, req, root, stat));
    }
  }

  /** The row is that of an accepted entry. */
  ghost predicate IsRowOf(r: Row, entries: seq<Dirent>, kind: int, req: string, root: string, stat: string -> bool) {
    exists k :: 0 <= k < |entries| && r == RowOf(entries[k], req) &&
                Accepted(entries[k], kind, AbsPath(req, root), stat)
  }

  /** Every row is that of an accepted entry ... */
  lemma {:induction false} RowOrigin(entries: seq<Dirent>, kind: int, req: string, root: string,
                                     stat: string -> bool, r: Row)
    requires r in Rows(entries, kind, req, root, stat)
    ensures IsRowOf(r, entries, kind, req, root, stat)
  {
    var (most, e) := (entries[..|entries| - 1], entries[|entries| - 1]);
    if r in Rows(most, kind, req, root, stat) {
      RowOrigin(most, kind, req, root, stat, r);
      var k :| 0 <= k < |most| && Accepted(most[k], kind, AbsPath(req, root), stat) && r == RowOf(most[k], req);
      assert entries[k] == most[k];
    } else {
      assert e == entries[|entries| - 1];
    }
  }

  /** ... every accepted entry has its row ... */
  lemma {:induction false} EntryListed(entries: seq<Dirent>, kind: int, req: string, root: string,
                                       stat: string -> bool, k: nat)
    requires k < |entries| && Accepted(entries[k], kind, AbsPath(req, root), stat)
    ensures RowOf(entries[k], req) in Rows(entries, kind, req, root, stat)
  {
    if k < |entries| - 1 {
      EntryListed(entries[..|entries| - 1], kind, req, root, stat, k);
    }
  }

  lemma OtherName(most: seq<Dirent>, e: Dirent, kind: int, req: string, root: string, stat: string -> bool, r: Row)
    requires r in Rows(most, kind, req, root, stat)
    requires forall k :: 0 <= k < |most| ==> most[k].name != e.name
    ensures r.name != RowOf(e, req).name
  {
    hide Rows, RowOf, Link, AbsPath, Accepted;
    RowOrigin(most, kind, req, root, stat, r);
    var k :| 0 <= k < |most| && r == RowOf(most[k], req) && Accepted(most[k], kind, AbsPath(req, root), stat);
    if r.name == RowOf(e, req).name {
      NamesDiffer(most[k], e, req);
    }
  }

  /** ... and no name comes twice. */
  lemma {:induction false} RowsDistinct(entries: seq<Dirent>, kind: int, req: string, root: string,
                                        stat: string -> bool)
    requires DistinctEntries(entries)
    ensures DistinctNames(Rows(entries, kind, req, root, stat))
  {
    hide RowOf, Accepted, AbsPath;
    if entries != [] {
      var (most, e) := (entries[..|entries| - 1], entries[|entries| - 1]);
      RowsDistinct(most, kind, req, root, stat);
      forall r | r in Rows(most, kind, req, root, stat)
        ensures r.name != RowOf(e, req).name
      {
        OtherName(most, e, kind, req, root, stat, r);
      }
    }
  }

  lemma TwiceInMultiset(xs: seq<Row>, i: nat, j: nat)
    requires i < j < |xs| && xs[i] == xs[j]
    ensures multiset(xs)[xs[i]] >= 2
  {
    assert xs == xs[..i] + [xs[i]] + xs[i + 1..j] + [xs[j]] + xs[j + 1..];
  }

  lemma {:induction false} OnceInMultiset(ys: seq<Row>, r: Row)
    requires DistinctNames(ys)
    ensures multiset(ys)[r] <= 1
  {
    if ys != [] {
      var most := ys[..|ys| - 1];
      assert ys == most + [ys[|ys| - 1]];
      OnceInMultiset(most, r);
      assert ys[|ys| - 1] !in most;
    }
  }

  lemma SameRowsDistinct(xs: seq<Row>, ys: seq<Row>)
    requires multiset(xs) == multiset(ys) && DistinctNames(ys)
    ensures DistinctNames(xs)
  {
    forall i, j | 0 <= i < j < |xs|
      ensures xs[i].name != xs[j].name
    {
      if xs[i].name == xs[j].name {
        assert xs[i] in multiset(ys) && xs[j] in multiset(ys);
        assert xs[i] == xs[j];
        TwiceInMultiset(xs, i, j);
        OnceInMultiset(ys, xs[i]);
      }
    }
  }

  /** Whatever order readdir gives the entries in, GetEntry returns the same rows. */
  lemma ListingIsOrderIndependent(xs: seq<Dirent>, ys: seq<Dirent>, kind: int, req: string, root: string,
                                  stat: string -> bool, a: seq<Row>, b: seq<Row>)
    requires DistinctEntries(xs) && multiset(xs) == multiset(ys)
    requires Lists(a, xs, kind, req, root, stat) && Lists(b, ys, kind, req, root, stat)
    ensures a == b
  {
    RowsPermute(xs, ys, kind, req, root, stat);
    RowsDistinct(xs, kind, req, root, stat);
    SameRowsDistinct(a, Rows(xs, kind, req, root, stat));
    OneSorting(a, b);
  }

  /** A row occurs in the listing once if it is that of an accepted entry, and otherwise not at all. */
  lemma EachEntryOnce(entries: seq<Dirent>, kind: int, req: string, root: string, stat: string -> bool,
                      rows: seq<Row>, r: Row)
    requires DistinctEntries(entries) && Lists(rows, entries, kind, req, root, stat)
    ensures multiset(rows)[r] == if IsRowOf(r, entries, kind, req, root, stat) then 1 else 0
  {
    var unsorted := Rows(entries, kind, req, root, stat);
    RowsDistinct(entries, kind, req, root, stat);
    OnceInMultiset(unsorted, r);
    if k :| 0 <= k < |entries| && Accepted(entries[k], kind, AbsPath(req, root), stat) && r == RowOf(entries[k], req) {
      EntryListed(entries, kind, req, root, stat, k);
    } else if r in unsorted {
      RowOrigin(entries, kind, req, root, stat, r);
    }
  }

  /** From a directory path that navigation can reach every listed link that fits leads to a file that exists, and Back
      from there to the directory. */
  lemma LinksExist(entries: seq<Dirent>, kind: int, req: string, root: string, stat: string -> bool,
                   rows: seq<Row>, r: Row) returns (k: nat)
    requires Lists(rows, entries, kind, req, root, stat) && r in rows
    requires forall e :: e in entries ==> IsName(e.name)
    requires req == "/" || (req != "" && req[|req| - 1] != '/')
    ensures k < |entries| && Accepted(entries[k], kind, AbsPath(req, root), stat) && r == RowOf(entries[k], req)
    ensures r.link == Link(req, entries[k].name) <==> LinkFits(entries[k], req)
    ensures LinkFits(entries[k], req) ==> stat(AbsPath(r.link, root)) && '/' in r.link && Back(r.link) == req
  {
    assert r in multiset(rows);
    RowOrigin(entries, kind, req, root, stat, r);
    k :| 0 <= k < |entries| && Accepted(entries[k], kind, AbsPath(req, root), stat) && r == RowOf(entries[k], req);
    RowAsMeant(entries[k], req, root);
    LinkReachesEntry(req, entries[k].name, root);
    BackUndoesLink(req, entries[k].name);
  }

  // ---------- the page ----------

  /** InsertRow. Its buffer has room for the row's fields but not for a link that runs on beyond its own, where the
      model ends. */
  method InsertRow(table: seq<Row>, info: Row) returns (table': seq<Row>, inside: bool)
    ensures inside <==> |info.link| < LINK_SIZE
    ensures inside ==> table' == table + [info]
  {
    inside := |info.link| < LINK_SIZE;
    table' := if inside then table + [info] else table;
  }

  ghost predicate RowsBelow(rows: seq<Row>) {
    forall i :: 0 <= i < |rows| ==> |rows[i].link| < LINK_SIZE
  }

  /** InsertRow for each row of a listing, none if it is null. */
  method InsertRows(table: seq<Row>, fe: array?<Row>, length: nat) returns (table': seq<Row>, inside: bool)
    requires fe != null ==> length <= fe.Length
    ensures inside <==> fe == null || RowsBelow(fe[..length])
    ensures inside ==> table' == table + if fe == null then [] else fe[..length]
  {
    table', inside := table, true;
    if fe != null {
      for i := 0 to length
        invariant inside && RowsBelow(fe[..i])
        invariant table' == table + fe[..i]
      {
        table', inside := InsertRow(table', fe[i]);
        if !inside {
          return;
        }
      }
    }
  }

  /** The rows of a listing fit the page exactly if the links of its entries fit their fields. */
  lemma ListBelow(rows: seq<Row>, entries: seq<Dirent>, kind: int, req: string, root: string, stat: string -> bool)
    requires Lists(rows, entries, kind, req, root, stat)
    ensures RowsBelow(rows) <==> LinksBelow(LINK_SIZE, entries, kind, req, root, stat)
  {
    var unsorted := Rows(entries, kind, req, root, stat);
    forall i | 0 <= i < |entries| && Accepted(entries[i], kind, AbsPath(req, root), stat)
      ensures RowOf(entries[i], req) in rows
    {
      EntryListed(entries, kind, req, root, stat, i);
      assert RowOf(entries[i], req) in multiset(unsorted);
    }
    forall i | 0 <= i < |rows|
      ensures IsRowOf(rows[i], entries, kind, req, root, stat)
    {
      assert rows[i] in multiset(rows);
      RowOrigin(entries, kind, req, root, stat, rows[i]);
    }
  }

  function BackRow(req: string): seq<Row>
    requires req != "/" ==> '/' in req
  {
    if req == "/" then [] else [Stored(Back(req), "./..", "Back..")]
  }

  /** The scan for the Back link stops inside the string, the string is in the row, and the link in its field. */
  predicate HasBack(req: string) {
    req == "/" || ('/' in req && |req| < ROW_SIZE && LastSlash(req) < LINK_SIZE)
  }

  /** The Back row of MakeHTML. For a request that has no slash the scan for the Back link leaves the string, and one
      as long as a row leaves the row: the model ends there. */
  method MakeBackRow(req: CString) returns (back: Row, inside: bool)
    requires req != "/"
    ensures inside <==> '/' in req && |req| < ROW_SIZE
    ensures inside ==> [back] == BackRow(req)
  {
    back, inside := Row("", "", "Back.."), |req| < ROW_SIZE;
    if inside {
      var item := new char[ROW_SIZE](_ => NUL);
      inside := MakeBack(item, req);
      if inside {
        NulFree(req, "/");
        SetNameAndKind(item, Back(req), "./..", "Back..");
        back := ReadRow(item, BackRow(req)[0]);
      }
    }
  }

  ghost predicate IsPart(rows: seq<Row>, entries: Option<seq<Dirent>>, kind: int, req: string, root: string,
                         stat: string -> bool)
  {
    if entries.Some? then Lists(rows, entries.value, kind, req, root, stat) else rows == []
  }

  /** The rows of a page's table: the Back row unless at the top, the folders, the files.
      The directory is read twice, and may not be readable either time. */
  ghost predicate IsPage(table: seq<Row>, req: string, root: string, dirs: Option<seq<Dirent>>,
                         files: Option<seq<Dirent>>, stat: string -> bool)
    requires req != "/" ==> '/' in req
  {
    exists d: seq<Row>, f: seq<Row> ::
      && IsPart(d, dirs, TYPE_DIR, req, root, stat)
      && IsPart(f, files, TYPE_FILE, req, root, stat)
      && table == BackRow(req) + d + f
  }

  /** GetEntry, and InsertRow for each of its rows. */
  method AddPart(table: seq<Row>, entries: Option<seq<Dirent>>, kind: int, req: CString, root: CString,
                 stat: string -> bool)
    returns (table': seq<Row>, inside: bool, ghost part: seq<Row>)
    requires root != ""
    ensures inside <==> PartBelow(LINK_SIZE, entries, kind, req, root, stat)
    ensures inside ==> IsPart(part, entries, kind, req, root, stat) && table' == table + part && RowsBelow(part)
  {
    hide Lists, Link, AbsPath;
    var fe, length;
    table', part := table, [];
    fe, length, inside := GetEntry(entries, kind, req, root, stat);
    if inside {
      part := if fe == null then [] else fe[..length];
      if fe != null {
        ListBelow(part, entries.value, kind, req, root, stat);
      }
      table', inside := InsertRows(table, fe, length);
    }
  }

  lemma BackRowOnTop()
    ensures BackRow("/") == [] && HasBack("/")
  {
  }

  lemma NoBack(req: string)
    requires req != "/" && !('/' in req && |req| < ROW_SIZE)
    ensures !HasBack(req)
  {
  }

  lemma ShortHasBack(req: string)
    ensures '/' in req && |req| <= 1791 ==> HasBack(req)
  {
  }

  lemma PartsMakePage(req: string, root: string, dirs: Option<seq<Dirent>>, files: Option<seq<Dirent>>,
                      stat: string -> bool, d: seq<Row>, f: seq<Row>)
    requires HasBack(req) && RowsBelow(d) && RowsBelow(f)
    requires IsPart(d, dirs, TYPE_DIR, req, root, stat) && IsPart(f, files, TYPE_FILE, req, root, stat)
    ensures IsPage(BackRow(req) + d + f, req, root, dirs, files, stat) && RowsBelow(BackRow(req) + d + f)
  {
    hide IsPart;
    BackRowBelow(req);
  }

  /** The Back link fits its field exactly if the last slash is in it. */
  lemma BackRowBelow(req: string)
    requires req != "/" ==> '/' in req && |req| < ROW_SIZE
    ensures RowsBelow(BackRow(req)) <==> HasBack(req)
  {
    if req != "/" {
      assert |BackRow(req)[0].link| < LINK_SIZE <==> |Back(req)| < LINK_SIZE;
    }
  }

  /** MakeHTML up to the text of the page: it is built exactly if the Back link can be made and every link, that of the
      Back row too, fits its field. */
  method MakeTable(req: CString, root: CString, dirs: Option<seq<Dirent>>, files: Option<seq<Dirent>>,
                   stat: string -> bool)
    returns (table: seq<Row>, inside: bool)
    requires root != ""
    ensures inside <==>
              && HasBack(req)
              && PartBelow(LINK_SIZE, dirs, TYPE_DIR, req, root, stat)
              && PartBelow(LINK_SIZE, files, TYPE_FILE, req, root, stat)
    ensures '/' in req && |req| <= 1791 ==> inside
    ensures inside ==> IsPage(table, req, root, dirs, files, stat) && RowsBelow(table)
  {
    ShortRequest(1791, req, dirs, TYPE_DIR, root, stat);
    ShortRequest(1791, req, files, TYPE_FILE, root, stat);
    ShortHasBack(req);
    hide IsPart, PartBelow, IsPage, HasBack, Back, BackRow;
    table, inside := [], true;
    BackRowOnTop();
    if req != "/" {
      var back;
      back, inside := MakeBackRow(req);
      if !inside {
        NoBack(req);
        return;
      }
      BackRowBelow(req);
      table, inside := InsertRow(table, back);
    }
    if inside {
      assert table == BackRow(req);
      ghost var d, f;
      table, inside, d := AddPart(table, dirs, TYPE_DIR, req, root, stat);
      if inside {
        table, inside, f := AddPart(table, files, TYPE_FILE, req, root, stat);
        if inside {
          PartsMakePage(req, root, dirs, files, stat, d, f);
        }
      }
    }
  }

  /** An entry of this d_type that is shown. */
  predicate Shown(e: Dirent, kind: int, req: string, root: string, stat: string -> bool) {
    e.kind == kind && e.name != "." && e.name != ".." && stat(AbsPath(e.name, AbsPath(req, root)))
  }

  /** A row that an entry of this d_type is shown in. */
  ghost predicate ShowsOne(r: Row, entries: seq<Dirent>, kind: int, req: string, root: string, stat: string -> bool) {
    exists e :: e in entries && Shown(e, kind, req, root, stat) && r == RowOf(e, req)
  }

  lemma RowKind(e: Dirent, req: string)
    ensures RowOf(e, req).kind == if e.kind == 8 then "File" else "Folder"
  {
  }

  /** The entries of d_type 4 are those listed as folders, and those of d_type 8 those listed as files; all of them that
      stat finds, but for "." and "..". */
  lemma PartShows(rows: seq<Row>, entries: seq<Dirent>, kind: int, req: string, root: string, stat: string -> bool)
    requires Lists(rows, entries, kind, req, root, stat) && (kind == 4 || kind == 8)
    ensures forall e :: e in entries && Shown(e, kind, req, root, stat) ==> RowOf(e, req) in rows
    ensures forall i :: 0 <= i < |rows| ==>
              && ShowsOne(rows[i], entries, kind, req, root, stat)
              && rows[i].kind == (if kind == 4 then "Folder" else "File")
    ensures forall i, j :: 0 <= i < j < |rows| ==> StrCmp(rows[i].name, rows[j].name) <= 0
  {
    hide Rows, RowOf, StrCmp, AbsPath, Link;
    var unsorted := Rows(entries, kind, req, root, stat);
    forall e | e in entries && Shown(e, kind, req, root, stat)
      ensures RowOf(e, req) in rows
    {
      var k :| 0 <= k < |entries| && entries[k] == e;
      EntryListed(entries, kind, req, root, stat, k);
      assert RowOf(e, req) in multiset(unsorted);
    }
    forall i | 0 <= i < |rows|
      ensures ShowsOne(rows[i], entries, kind, req, root, stat)
      ensures rows[i].kind == if kind == 4 then "Folder" else "File"
    {
      assert rows[i] in multiset(rows);
      RowOrigin(entries, kind, req, root, stat, rows[i]);
      var k :| 0 <= k < |entries| && rows[i] == RowOf(entries[k], req) &&
               Accepted(entries[k], kind, AbsPath(req, root), stat);
      RowKind(entries[k], req);
      assert Shown(entries[k], kind, req, root, stat);
    }
  }

  lemma BackRowInFull(req: string)
    requires HasBack(req)
    ensures BackRow(req) == if req == "/" then [] else [Row(Back(req), "./..", "Back..")]
  {
  }

  /** The order of a page: the Back row, unless at the top, then the folders by name, then the files by name; each row
      is that of an entry shown, and each entry shown has its row. */
  lemma PageOrder(table: seq<Row>, req: string, root: string, dirs: seq<Dirent>, files: seq<Dirent>,
                  stat: string -> bool) returns (d: seq<Row>, f: seq<Row>)
    requires HasBack(req) && IsPage(table, req, root, Some(dirs), Some(files), stat)
    ensures table == (if req == "/" then [] else [Row(Back(req), "./..", "Back..")]) + d + f
    ensures forall i :: 0 <= i < |d| ==> d[i].kind == "Folder" && ShowsOne(d[i], dirs, 4, req, root, stat)
    ensures forall i :: 0 <= i < |f| ==> f[i].kind == "File" && ShowsOne(f[i], files, 8, req, root, stat)
    ensures forall e :: e in dirs && Shown(e, 4, req, root, stat) ==> RowOf(e, req) in d
    ensures forall e :: e in files && Shown(e, 8, req, root, stat) ==> RowOf(e, req) in f
    ensures forall i, j :: 0 <= i < j < |d| ==> StrCmp(d[i].name, d[j].name) <= 0
    ensures forall i, j :: 0 <= i < j < |f| ==> StrCmp(f[i].name, f[j].name) <= 0
  {
    BackRowInFull(req);
    hide Lists, ShowsOne, Shown, RowOf, StrCmp, Back, BackRow;
    d, f :| IsPart(d, Some(dirs), TYPE_DIR, req, root, stat) && IsPart(f, Some(files), TYPE_FILE, req, root, stat)
            && table == BackRow(req) + d + f;
    PartShows(d, dirs, 4, req, root, stat);
    PartShows(f, files, 8, req, root, stat);
  }

  /** The row of an entry whose name and link fit, in full. */
  lemma RowInFull(e: Dirent, req: string)
    requires |e.name| < 255 && |req| + 1 + |e.name| < 2048 && (e.kind == 4 || e.kind == 8)
    ensures RowOf(e, req) ==
            Row(if req == "/" then "/" + e.name else req + "/" + e.name, e.name,
                if e.kind == 4 then "Folder" else "File")
  {
  }

  /** Every row of a page leads along a move: the Back row up, and any other down into an entry that exists. */
  lemma RowsAreMoves(table: seq<Row>, req: string, root: string, dirs: Option<seq<Dirent>>,
                     files: Option<seq<Dirent>>, stat: string -> bool, r: Row) returns (move: Move)
    requires HasBack(req) && (req == "/" || req[|req| - 1] != '/')
    requires IsPage(table, req, root, dirs, files, stat) && RowsBelow(table) && r in table
    requires dirs.Some? ==> forall e :: e in dirs.value ==> IsName(e.name)
    requires files.Some? ==> forall e :: e in files.value ==> IsName(e.name)
    ensures Follows(req, move) && r.link == Follow(req, move)
    ensures move.Into? ==> stat(AbsPath(Follow(req, move), root))
  {
    hide Lists;
    var d, f :| IsPart(d, dirs, TYPE_DIR, req, root, stat) && IsPart(f, files, TYPE_FILE, req, root, stat)
                && table == BackRow(req) + d + f;
    if r in BackRow(req) {
      move := Up;
    } else {
      var k;
      if r in d {
        k := LinksExist(dirs.value, TYPE_DIR, req, root, stat, d, r);
        move := Into(dirs.value[k].name);
      } else {
        k := LinksExist(files.value, TYPE_FILE, req, root, stat, f, r);
        move := Into(files.value[k].name);
      }
    }
  }

  /** The page of a directory does not depend on the orders in which its entries are read. */
  lemma PageIsOrderIndependent(entries: seq<Dirent>, xs: seq<Dirent>, ys: seq<Dirent>, zs: seq<Dirent>,
                               req: string, root: string, stat: string -> bool, a: seq<Row>, b: seq<Row>)
    requires req != "/" ==> '/' in req
    requires DistinctEntries(entries)
    requires multiset(entries) == multiset(xs) == multiset(ys) == multiset(zs)
    requires IsPage(a, req, root, Some(entries), Some(xs), stat)
    requires IsPage(b, req, root, Some(ys), Some(zs), stat)
    ensures a == b
  {
    var d, f :| IsPart(d, Some(entries), TYPE_DIR, req, root, stat) && IsPart(f, Some(xs), TYPE_FILE, req, root, stat)
                && a == BackRow(req) + d + f;
    var d', f' :| IsPart(d', Some(ys), TYPE_DIR, req, root, stat) && IsPart(f', Some(zs), TYPE_FILE, req, root, stat)
                  && b == BackRow(req) + d' + f';
    ListingIsOrderIndependent(entries, ys, TYPE_DIR, req, root, stat, d, d');
    RowsPermute(entries, xs, TYPE_FILE, req, root, stat);
    ListingIsOrderIndependent(entries, zs, TYPE_FILE, req, root, stat, f, f');
  }

  lemma ListsPermuted(rows: seq<Row>, xs: seq<Dirent>, ys: seq<Dirent>, kind: int, req: string, root: string,
                      stat: string -> bool)
    requires IsPart(rows, Some(xs), kind, req, root, stat) && multiset(ys) == multiset(xs)
    ensures Lists(rows, ys, kind, req, root, stat)
  {
    RowsPermute(ys, xs, kind, req, root, stat);
  }

  lemma NotTheBackRow(req: string, r: Row)
    requires req != "/" ==> '/' in req
    requires '/' !in r.name
    ensures multiset(BackRow(req))[r] == 0
  {
    assert "./.."[1] == '/';
  }

  lemma CountThree<T>(a: seq<T>, b: seq<T>, c: seq<T>, x: T)
    ensures multiset(a + b + c)[x] == multiset(a)[x] + multiset(b)[x] + multiset(c)[x]
  {
  }

  lemma RowOfOne(entries: seq<Dirent>, kind: int, req: string, root: string, stat: string -> bool, k: nat)
    requires DistinctEntries(entries) && kind != TYPE_ALL
    requires k < |entries| && Accepted(entries[k], TYPE_ALL, AbsPath(req, root), stat)
    ensures IsRowOf(RowOf(entries[k], req), entries, kind, req, root, stat) <==> entries[k].kind == kind
  {
    hide Link, AbsPath, RowOf;
    if i :| 0 <= i < |entries| && Accepted(entries[i], kind, AbsPath(req, root), stat)
            && RowOf(entries[k], req) == RowOf(entries[i], req) {
      NamesDiffer(entries[i], entries[k], req);
    }
  }

  lemma OnceInItsPart(entries: seq<Dirent>, kind: int, req: string, root: string, stat: string -> bool,
                      rows: seq<Row>, k: nat)
    requires DistinctEntries(entries) && Lists(rows, entries, kind, req, root, stat) && kind != TYPE_ALL
    requires k < |entries| && Accepted(entries[k], TYPE_ALL, AbsPath(req, root), stat)
    ensures multiset(rows)[RowOf(entries[k], req)] == if entries[k].kind == kind then 1 else 0
  {
    hide Lists, DistinctEntries, Accepted, RowOf, IsRowOf;
    EachEntryOnce(entries, kind, req, root, stat, rows, RowOf(entries[k], req));
    RowOfOne(entries, kind, req, root, stat, k);
  }

  /** The row that is meant for an entry is nobody else's. */
  lemma MeantForOne(entries: seq<Dirent>, kind: int, req: string, root: string, stat: string -> bool, k: nat)
    requires DistinctEntries(entries) && k < |entries| && IsName(entries[k].name)
    requires IsRowOf(Meant(entries[k], req), entries, kind, req, root, stat)
    ensures Meant(entries[k], req) == RowOf(entries[k], req)
  {
    hide Link, AbsPath;
    var i :| 0 <= i < |entries| && Meant(entries[k], req) == RowOf(entries[i], req)
             && Accepted(entries[i], kind, AbsPath(req, root), stat);
    assert entries[i].name == entries[k].name;
  }

  /** A row meant for an entry that it does not fit is in neither part. */
  lemma NotInPart(entries: seq<Dirent>, kind: int, req: string, root: string, stat: string -> bool,
                  rows: seq<Row>, k: nat)
    requires DistinctEntries(entries) && Lists(rows, entries, kind, req, root, stat)
    requires k < |entries| && IsName(entries[k].name) && Meant(entries[k], req) != RowOf(entries[k], req)
    ensures multiset(rows)[Meant(entries[k], req)] == 0
  {
    hide Lists, DistinctEntries, RowOf, Meant, IsRowOf;
    EachEntryOnce(entries, kind, req, root, stat, rows, Meant(entries[k], req));
    if IsRowOf(Meant(entries[k], req), entries, kind, req, root, stat) {
      MeantForOne(entries, kind, req, root, stat, k);
    }
  }

  lemma OnceAndAsMeant(entries: seq<Dirent>, req: string, root: string, stat: string -> bool,
                       back: seq<Row>, d: seq<Row>, f: seq<Row>, k: nat)
    requires DistinctEntries(entries)
    requires Lists(d, entries, TYPE_DIR, req, root, stat) && Lists(f, entries, TYPE_FILE, req, root, stat)
    requires k < |entries| && IsName(entries[k].name)
    requires entries[k].kind == TYPE_DIR || entries[k].kind == TYPE_FILE
    requires Accepted(entries[k], TYPE_ALL, AbsPath(req, root), stat)
    requires multiset(back)[RowOf(entries[k], req)] == multiset(back)[Meant(entries[k], req)] == 0
    ensures multiset(back + d + f)[RowOf(entries[k], req)] == 1
    ensures Meant(entries[k], req) in back + d + f <==> Meant(entries[k], req) == RowOf(entries[k], req)
  {
    hide Lists, Accepted, DistinctEntries, RowOf, Meant;
    var (r, meant) := (RowOf(entries[k], req), Meant(entries[k], req));
    OnceInItsPart(entries, TYPE_DIR, req, root, stat, d, k);
    OnceInItsPart(entries, TYPE_FILE, req, root, stat, f, k);
    CountThree(back, d, f, r);
    if meant != r {
      NotInPart(entries, TYPE_DIR, req, root, stat, d, k);
      NotInPart(entries, TYPE_FILE, req, root, stat, f, k);
      CountThree(back, d, f, meant);
      assert meant !in multiset(back + d + f);
    }
    assert r in multiset(back + d + f);
  }

  /** Each folder and each file that is not a dot entry and that stat finds has exactly one row on the page; and the row
      meant for it, which is then that row, is on the page exactly if name and link fit their fields. */
  lemma EachOnceOnPage(entries: seq<Dirent>, xs: seq<Dirent>, ys: seq<Dirent>,
                       req: string, root: string, stat: string -> bool, table: seq<Row>, k: nat)
    requires req != "/" ==> '/' in req
    requires DistinctEntries(entries) && multiset(entries) == multiset(xs) == multiset(ys)
    requires IsPage(table, req, root, Some(xs), Some(ys), stat)
    requires k < |entries| && IsName(entries[k].name)
    requires entries[k].kind == TYPE_DIR || entries[k].kind == TYPE_FILE
    requires Accepted(entries[k], TYPE_ALL, AbsPath(req, root), stat)
    ensures multiset(table)[RowOf(entries[k], req)] == 1
    ensures Meant(entries[k], req) in table <==> RowFits(entries[k], req)
  {
    hide AbsPath, Accepted, DistinctEntries, RowOf, Meant, RowFits, Link, Lists, BackRow;
    var d, f :| IsPart(d, Some(xs), TYPE_DIR, req, root, stat) && IsPart(f, Some(ys), TYPE_FILE, req, root, stat)
                && table == BackRow(req) + d + f;
    ListsPermuted(d, xs, entries, TYPE_DIR, req, root, stat);
    ListsPermuted(f, ys, entries, TYPE_FILE, req, root, stat);
    AsMeant(entries[k], req);
    RowNamesAreFree(entries[k], req);
    NotTheBackRow(req, RowOf(entries[k], req));
    NotTheBackRow(req, Meant(entries[k], req));
    OnceAndAsMeant(entries, req, root, stat, BackRow(req), d, f, k);
  }
}

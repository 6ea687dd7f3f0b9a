/** RowInfo of page.h: strings copied into fields of fixed size, one behind the other in memory. */
module RowInfo {
  import opened CStrings

  const LINK_SIZE: nat := 2048
  const NAME_SIZE: nat := 255
  const COLUMN_SIZE: nat := 32

  const NAME_AT: nat := LINK_SIZE
  const KIND_AT: nat := NAME_AT + NAME_SIZE
  /** Behind the type come the columns for size and time. */
  const ROW_SIZE: nat := KIND_AT + 3 * COLUMN_SIZE

  /** What d_name of a directory entry can hold: 256 characters with the NUL. */
  type EntryName = s: string | NUL !in s && |s| <= 255

  /** What the type column is set to. */
  type KindName = s: string | NUL !in s && 0 < |s| < COLUMN_SIZE witness "File"

  /** The strings of a row, without sizes and times. */
  datatype Row = Row(link: string, name: CString, kind: KindName)

  /** What the memory of a row reads as. */
  predicate Reads(mem: seq<char>, r: Row) {
    Holds(mem, 0, r.link) && Holds(mem, NAME_AT, r.name) && Holds(mem, KIND_AT, r.kind)
  }

  /** A name that fills its field has no NUL there: the type follows it. */
  function StoredName(name: CString, kind: KindName): CString {
    if |name| < NAME_SIZE then name else name[..NAME_SIZE] + kind
  }

  /** The name overwrites what a link has beyond its field, and follows what the link has in it. */
  function StoredLink(link: string, name: CString, kind: KindName): string {
    if |link| < LINK_SIZE then link else link[..LINK_SIZE] + StoredName(name, kind)
  }

  /** What a row reads as into which these strings are copied in turn. */
  function Stored(link: string, name: CString, kind: KindName): Row {
    Row(StoredLink(link, name, kind), StoredName(name, kind), kind)
  }

  /** A string in memory, cell by cell. */
  predicate CellsHold(mem: seq<char>, at: nat, s: string) {
    at + |s| < |mem| && mem[at + |s|] == NUL && forall x :: at <= x < at + |s| ==> mem[x] == s[x - at]
  }

  lemma CellByCell(mem: seq<char>, at: nat, s: string)
    ensures CellsHold(mem, at, s) <==> Holds(mem, at, s)
  {
    if Holds(mem, at, s) {
      assert forall x :: at <= x < at + |s| ==> mem[x] == mem[at..at + |s|][x - at];
    }
  }

  /** The cells outside the string at `at` are the same. */
  predicate SameOutside(m: seq<char>, m': seq<char>, at: nat, s: string) {
    |m| == |m'| && forall x :: 0 <= x < |m| && !(at <= x <= at + |s|) ==> m'[x] == m[x]
  }

  lemma NameCells(m: seq<char>, m': seq<char>, name: EntryName, kind: KindName)
    requires |m| == ROW_SIZE && CellsHold(m, NAME_AT, name)
    requires CellsHold(m', KIND_AT, kind) && SameOutside(m, m', KIND_AT, kind)
    ensures CellsHold(m', NAME_AT, StoredName(name, kind))
  {
  }

  lemma LinkCells(m: seq<char>, m': seq<char>, link: string, name: EntryName, kind: KindName)
    requires |m| == |m'| == ROW_SIZE && CellsHold(m, 0, link)
    requires CellsHold(m', NAME_AT, StoredName(name, kind)) && forall x :: 0 <= x < LINK_SIZE ==> m'[x] == m[x]
    ensures CellsHold(m', 0, StoredLink(link, name, kind))
  {
    hide StoredName;
  }

  /** `m` is the memory after the link, `m'` after the name and `m''` after the type was copied. */
  lemma ReadsStored(m: seq<char>, m': seq<char>, m'': seq<char>, link: string, name: EntryName, kind: KindName)
    requires |m| == ROW_SIZE && Holds(m, 0, link)
    requires Holds(m', NAME_AT, name) && SameOutside(m, m', NAME_AT, name)
    requires Holds(m'', KIND_AT, kind) && SameOutside(m', m'', KIND_AT, kind)
    ensures Reads(m'', Stored(link, name, kind))
  {
    hide Holds, CellsHold, StoredName, StoredLink;
    CellByCell(m, 0, link);
    CellByCell(m', NAME_AT, name);
    CellByCell(m'', KIND_AT, kind);
    NameCells(m', m'', name, kind);
    LinkCells(m, m'', link, name, kind);
    CellByCell(m'', NAME_AT, StoredName(name, kind));
    CellByCell(m'', 0, StoredLink(link, name, kind));
  }

  /** The name and the type go into a row behind the link, which may be longer than its field. */
  method SetNameAndKind(item: array<char>, ghost link: string, name: EntryName, kind: KindName)
    requires item.Length == ROW_SIZE && Holds(item[..], 0, link)
    modifies item
    ensures Reads(item[..], Stored(link, name, kind))
  {
    ghost var m := item[..];
    StrCpy(item, NAME_AT, name);
    ghost var m' := item[..];
    StrCpy(item, KIND_AT, kind);
    ReadsStored(m, m', item[..], link, name, kind);
  }

  /** The strings that a row holds. */
  method ReadRow(item: array<char>, ghost r: Row) returns (row: Row)
    requires Reads(item[..], r) && NUL !in r.link
    ensures row == r
  {
    var link := Text(item, 0, r.link);
    var name := Text(item, NAME_AT, r.name);
    var kind := Text(item, KIND_AT, r.kind);
    row := Row(link, name, kind);
  }

  /** The name reads as given exactly if it is shorter than its field; the link, exactly if it is shorter than its own
      or what it has beyond it is what is stored there. */
  lemma StoredAsGiven(link: string, name: EntryName, kind: KindName)
    ensures StoredName(name, kind) == name <==> |name| < NAME_SIZE
    ensures StoredLink(link, name, kind) == link <==>
            |link| < LINK_SIZE || link[LINK_SIZE..] == StoredName(name, kind)
  {
    if LINK_SIZE <= |link| {
      assert link == link[..LINK_SIZE] + link[LINK_SIZE..];
    }
  }
}

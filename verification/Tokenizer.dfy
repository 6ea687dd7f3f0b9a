/** The in-place tokenizer of utility.c, and the two-dimensional block of utility.h that it fills. */
module Tokenizer {
  import opened Seqs
  import opened CStrings
  import opened Splitting
  import Wire

  lemma JoinOfNothing(c: char)
    ensures Join([], c) == ""
  {
  }

  /** What has been written for the first `i` characters: their words joined, and after a flagged separator that too. */
  ghost predicate Progress(s: string, c: char, i: nat, out: string, flag: bool)
    requires i <= |s|
  {
    var ws := Words(s[..i], c);
    if flag then
      i > 0 && s[i - 1] == c && ws != [] && out == Join(ws, c) + [c]
    else
      out == Join(ws, c) &&
      if ws == [] then (i == 0 || s[i - 1] == c) && (i < |s| ==> s[i] != c) else s[i - 1] != c
  }

  lemma {:induction false} NoWords(s: string, c: char)
    requires forall k :: 0 <= k < |s| ==> s[k] == c
    ensures Words(s, c) == []
  {
    if s != "" {
      NoWords(s[..|s| - 1], c);
    }
  }

  /** Nothing is written for leading separators. */
  lemma AfterSeparators(s: string, c: char, i: nat)
    requires i <= |s| && (i < |s| ==> s[i] != c) && forall k :: 0 <= k < i ==> s[k] == c
    ensures Progress(s, c, i, "", false)
  {
    NoWords(s[..i], c);
  }

  lemma NextChar(s: string, c: char, i: nat, out: string, flag: bool)
    requires i < |s| && Progress(s, c, i, out, flag)
    ensures if s[i] != c then Progress(s, c, i + 1, out + [s[i]], false)
            else if !flag then Progress(s, c, i + 1, out + [s[i]], true)
            else Progress(s, c, i + 1, out, true)
  {
    hide Words, Join;
    var (pre, x) := (s[..i], s[i]);
    var ws := Words(pre, c);
    WordsNext(pre, x, c);
    assert s[..i + 1] == pre + [x];
    WordsOfNothing(c);
    JoinMore(ws, [x], c);
    JoinOfNothing(c);
    if ws != [] {
      JoinExtended(ws, x, c);
    }
  }

  /** At the end, the words joined are there, and perhaps one separator more. */
  lemma AllWritten(s: string, c: char, out: string, flag: bool)
    requires Progress(s, c, |s|, out, flag)
    ensures flag ==> out != "" && out[..|out| - 1] == Formatted(s, c)
    ensures !flag ==> out == Formatted(s, c)
  {
    hide Words, Join;
    assert s[..|s|] == s;
  }

  method Store(ret: array<char>, j: nat, x: char)
    requires j < ret.Length
    modifies ret
    ensures ret[..j + 1] == old(ret[..j]) + [x]
  {
    ret[j] := x;
  }

  /** One round of the loop of FormatByChar. */
  method PutChar(ret: array<char>, s: string, c: char, i: nat, j: nat, flag: bool) returns (j': nat, flag': bool)
    requires i < |s| && j <= i < ret.Length && Progress(s, c, i, ret[..j], flag)
    modifies ret
    ensures j' <= i + 1 && Progress(s, c, i + 1, ret[..j'], flag')
  {
    hide Progress;
    j', flag' := j, flag;
    ghost var out := ret[..j];
    NextChar(s, c, i, out, flag);
    if s[i] != c {
      Store(ret, j, s[i]);
      j' := j + 1;
      flag' := false;
    } else {
      if !flag {
        Store(ret, j, s[i]);
        j' := j + 1;
        flag' := true;
      }
    }
  }

  /** FormatByChar; a null pointer is None. */
  method FormatByChar(src: Option<CString>, c: char) returns (ret: array?<char>)
    ensures src == None || src == Some("") ==> ret == null
    ensures src.Some? && src.value != "" ==>
              ret != null && fresh(ret) && ret.Length == |src.value| + 1
              && Holds(ret[..], 0, Formatted(src.value, c))
  {
    var len := if src.Some? then |src.value| else 0;
    ret := null;
    if len != 0 {
      hide Words, Formatted, Progress;
      var s := src.value;
      ret := new char[len + 1];
      var i, j, flag := 0, 0, false;
      while i < len && s[i] == c
        invariant 0 <= i <= len && forall k :: 0 <= k < i ==> s[k] == c
      {
        i := i + 1;
      }
      AfterSeparators(s, c, i);
      while i < len
        invariant 0 <= i <= len && 0 <= j <= i
        invariant Progress(s, c, i, ret[..j], flag)
      {
        j, flag := PutChar(ret, s, c, i, j, flag);
        i := i + 1;
      }
      AllWritten(s, c, ret[..j], flag);
      if flag {
        assert ret[..j - 1] == ret[..j][..j - 1];
        j := j - 1;
      }
      assert ret[..j] == Formatted(s, c);
      ret[j] := NUL;
      assert ret[0..0 + j] == Formatted(s, c);
    }
  }

  /** CharCount. */
  method CharCount(s: Option<CString>, c: char) returns (ret: nat)
    ensures ret == if s.Some? then Count(s.value, c) else 0
    ensures s.Some? ==> ret == multiset(s.value)[c]
  {
    ret := 0;
    if s.Some? {
      for i := 0 to |s.value|
        invariant ret == Count(s.value[..i], c)
      {
        assert s.value[..i + 1][..i] == s.value[..i];
        ret := ret + if s.value[i] == c then 1 else 0;
      }
      assert s.value[..|s.value|] == s.value;
      CountIsMultiplicity(s.value, c);
    }
  }

  // ---------- rows ----------

  /** A char** whose rows start at the given places of one block of characters. */
  class Rows {
    const cells: array<char>
    const start: array<nat>

    constructor (cells: array<char>, start: array<nat>)
      ensures this.cells == cells && this.start == start
    {
      this.cells, this.start := cells, start;
    }

    /** The first `row` rows have `col` cells each, and no cell in common. */
    ghost predicate Apart(row: int, col: nat)
      reads start
    {
      && row <= start.Length
      && (forall r :: 0 <= r < row ==> start[r] + col <= cells.Length)
      && (forall r, q :: 0 <= r < q < row ==> start[r] + col <= start[q] || start[q] + col <= start[r])
    }
  }

  lemma Area(row: nat, col: nat)
    ensures 0 <= row * col
  {
  }

  /** Row `r` ends where a later row starts, or before. */
  lemma RowBefore(r: int, q: int, col: nat)
    requires r < q
    ensures r * col + col <= q * col
  {
    assert (r + 1) * col <= q * col;
  }

  /** Malloc2d(char, row, col). The number of cells is computed as an int, and the model ends where it is not one. */
  method Malloc2d(row: int, col: int) returns (ret: Rows?, inside: bool)
    ensures inside <==> row <= 0 || col <= 0 || row * col <= 0x7FFF_FFFF
    ensures inside ==> (ret == null <==> row <= 0 || col <= 0)
    ensures inside && ret != null ==>
              && fresh(ret) && fresh(ret.cells) && fresh(ret.start)
              && ret.cells.Length == row * col && ret.start.Length == row
              && (forall r :: 0 <= r < row ==> ret.start[r] == r * col)
              && ret.Apart(row, col)
  {
    ret, inside := null, row <= 0 || col <= 0 || row * col <= Wire.INT_MAX;
    if inside && row > 0 && col > 0 {
      Area(row, col);
      var p := new char[row * col];
      var start := new nat[row];
      for i := 0 to row
        invariant forall r :: 0 <= r < i ==> start[r] == r * col
      {
        Area(i, col);
        start[i] := i * col;
      }
      ret := new Rows(p, start);
      forall r | 0 <= r < row
        ensures start[r] + col <= row * col
      {
        RowBefore(r, row, col);
      }
      forall r, q | 0 <= r < q < row
        ensures start[r] + col <= start[q]
      {
        RowBefore(r, q, col);
      }
    }
  }

  /** The row at `at` holds the word, or as much of it as goes into `col` cells with its NUL, then the NUL, and behind
      it what it held before. */
  ghost predicate RowHolds(cells: seq<char>, before: seq<char>, at: nat, col: nat, w: string)
    requires 1 <= col && at + col <= |cells| == |before|
  {
    var n := if |w| < col then |w| else col - 1;
    && cells[at..at + n] == w[..n]
    && cells[at + n] == NUL
    && cells[at + n + 1..at + col] == before[at + n + 1..at + col]
  }

  /** A word goes into its row: the copy and the NUL behind it. */
  method PutWord(cells: array<char>, at: nat, col: nat, buf: array<char>, j: nat, i: nat)
    requires buf != cells && 1 <= col && at + col <= cells.Length && j <= i <= buf.Length
    modifies cells
    ensures RowHolds(cells[..], old(cells[..]), at, col, buf[j..i])
    ensures forall x :: 0 <= x < cells.Length && !(at <= x < at + col) ==> cells[x] == old(cells[x])
  {
    var k := if i - j < col then i - j else col;
    StrNCpy(cells, at, buf, j, k);
    cells[at + if k < col then k else k - 1] := NUL;
  }

  lemma SomeCharacter(t: string, c: char, j: nat, i: nat)
    requires t != "" && Canonical(t, c)
    requires j <= i <= |t| && (j == 0 || (t + [c])[j - 1] == c) && (t + [c])[i] == c
    ensures j < i
  {
  }

  lemma OneMoreWord(text: string, c: char, j: nat, i: nat)
    requires j < i <= |text| && (j == 0 || text[j - 1] == c) && forall k :: j <= k < i ==> text[k] != c
    ensures Words(text[..i], c) == Words(text[..j], c) + [text[j..i]]
  {
    hide Words;
    var w := text[j..i];
    WordsOfWord(w, c);
    if j == 0 {
      assert text[..i] == w && text[..j] == "";
      WordsOfNothing(c);
    } else {
      WordsSplit(text[..j - 1], w, c);
      WordsNext(text[..j - 1], c, c);
      assert text[..i] == text[..j - 1] + [c] + w;
      assert text[..j] == text[..j - 1] + [c];
    }
  }

  /** At each separator of the formatted text and its sentinel, the characters since the last one are the next word. */
  lemma NextWord(s: string, c: char, text: string, j: nat, i: nat, n: nat)
    requires text == Formatted(s, c) + [c] && Formatted(s, c) != ""
    requires j <= i < |text| && (j == 0 || text[j - 1] == c) && text[i] == c
    requires forall k :: j <= k < i ==> text[k] != c
    requires n <= |Words(s, c)| && Words(text[..j], c) == Words(s, c)[..n]
    ensures n < |Words(s, c)| && Words(s, c)[n] == text[j..i]
    ensures Words(text[..i + 1], c) == Words(s, c)[..n + 1]
  {
    hide Words, Join, Formatted;
    var (ws, w) := (Words(s, c), text[j..i]);
    FormattedIsCanonicalForm(s, c);
    SomeCharacter(Formatted(s, c), c, j, i);
    WordsNext(Formatted(s, c), c, c);
    var rest := text[i + 1..];
    assert text == text[..i] + [c] + rest;
    WordsSplit(text[..i], rest, c);
    OneMoreWord(text, c, j, i);
    WordsNext(text[..i], c, c);
    assert text[..i + 1] == text[..i] + [c];
  }

  /** Cell `x` belongs to none of the first `n` rows. */
  ghost predicate OutOfRows(argv: Rows, n: int, col: nat, x: int)
    requires n <= argv.start.Length
    reads argv.start
  {
    forall r :: 0 <= r < n ==> !(argv.start[r] <= x < argv.start[r] + col)
  }

  /** The first `n` rows hold the first `n` words, and no cell outside of these rows has changed. */
  ghost predicate Filled(argv: Rows, n: nat, col: nat, ws: seq<string>, before: seq<char>, after: seq<char>)
    requires n <= |ws| && 1 <= col && |before| == |after| == argv.cells.Length && argv.Apart(n, col)
    reads argv.start
  {
    && (forall r :: 0 <= r < n ==> RowHolds(after, before, argv.start[r], col, ws[r]))
    && (forall x :: 0 <= x < |after| && OutOfRows(argv, n, col, x) ==> after[x] == before[x])
  }

  lemma RowRebased(before: seq<char>, mid: seq<char>, after: seq<char>, at: nat, col: nat, w: string)
    requires 1 <= col && |before| == |mid| == |after| && at + col <= |mid| && RowHolds(after, mid, at, col, w)
    requires forall x :: at <= x < at + col ==> mid[x] == before[x]
    ensures RowHolds(after, before, at, col, w)
  {
    var n := if |w| < col then |w| else col - 1;
    assert mid[at + n + 1..at + col] == before[at + n + 1..at + col];
  }

  lemma RowOfSlice(mid: seq<char>, after: seq<char>, before: seq<char>, at: nat, col: nat, w: string)
    requires 1 <= col && |before| == |mid| == |after| && at + col <= |mid| && RowHolds(mid, before, at, col, w)
    requires after[at..at + col] == mid[at..at + col]
    ensures RowHolds(after, before, at, col, w)
  {
    var n := if |w| < col then |w| else col - 1;
    Within(after, at, n, col);
    Within(mid, at, n, col);
  }

  lemma Within(s: seq<char>, at: nat, n: nat, col: nat)
    requires n < col && at + col <= |s|
    ensures s[at..at + n] == s[at..at + col][..n]
    ensures s[at + n] == s[at..at + col][n]
    ensures s[at + n + 1..at + col] == s[at..at + col][n + 1..]
  {
  }

  lemma RowKept(before: seq<char>, mid: seq<char>, after: seq<char>, at: nat, col: nat, w: string)
    requires 1 <= col && |before| == |mid| == |after| && at + col <= |mid| && RowHolds(mid, before, at, col, w)
    requires forall x :: at <= x < at + col ==> after[x] == mid[x]
    ensures RowHolds(after, before, at, col, w)
  {
    assert after[at..at + col] == mid[at..at + col];
    RowOfSlice(mid, after, before, at, col, w);
  }

  /** Filling row `n` leaves the rows before it as they are. */
  lemma RowsNext(argv: Rows, row: int, col: nat, ws: seq<string>, n: nat,
                 before: seq<char>, mid: seq<char>, after: seq<char>)
    requires 1 <= col && argv.Apart(row, col) && n < row && n < |ws|
    requires |before| == |mid| == |after| == argv.cells.Length
    requires Filled(argv, n, col, ws, before, mid)
    requires RowHolds(after, mid, argv.start[n], col, ws[n])
    requires forall x :: 0 <= x < |mid| && !(argv.start[n] <= x < argv.start[n] + col) ==> after[x] == mid[x]
    ensures Filled(argv, n + 1, col, ws, before, after)
  {
    hide RowHolds;
    forall r | 0 <= r < n
      ensures RowHolds(after, before, argv.start[r], col, ws[r])
    {
      RowKept(before, mid, after, argv.start[r], col, ws[r]);
    }
    forall x | argv.start[n] <= x < argv.start[n] + col
      ensures mid[x] == before[x]
    {
      assert OutOfRows(argv, n, col, x);
    }
    RowRebased(before, mid, after, argv.start[n], col, ws[n]);
    forall x | 0 <= x < |mid| && OutOfRows(argv, n + 1, col, x)
      ensures after[x] == before[x]
    {
      assert OutOfRows(argv, n, col, x);
    }
  }

  lemma RowCells(argv: Rows, n: nat, col: nat, ws: seq<string>, before: seq<char>, after: seq<char>)
    requires n <= |ws| && 1 <= col && |before| == |after| == argv.cells.Length && argv.Apart(n, col)
    requires Filled(argv, n, col, ws, before, after)
    ensures forall r :: 0 <= r < n ==>
              var (at, k) := (argv.start[r], if |ws[r]| < col then |ws[r]| else col - 1);
              && after[at..at + k] == ws[r][..k] && after[at + k] == NUL
              && after[at + k + 1..at + col] == before[at + k + 1..at + col]
  {
  }

  lemma FewerApart(argv: Rows, row: int, col: nat)
    requires argv.Apart(row, col)
    ensures forall n :: n <= row ==> argv.Apart(n, col)
    ensures argv.Apart(0, col) && row <= argv.start.Length
    ensures forall r :: 0 <= r < row ==> argv.start[r] + col <= argv.cells.Length
  {
  }

  lemma NoneFilled(argv: Rows, col: nat, ws: seq<string>, before: seq<char>)
    requires 1 <= col && |before| == argv.cells.Length && argv.Apart(0, col)
    ensures Filled(argv, 0, col, ws, before, before)
  {
  }

  lemma WordsOfText(s: string, c: char, text: string)
    requires text == Formatted(s, c) + [c]
    ensures Words(text, c) == Words(s, c)
  {
    FormattedIsCanonicalForm(s, c);
    WordsNext(Formatted(s, c), c, c);
  }

  lemma SameSlice(a: string, b: string, j: nat, i: nat)
    requires |b| <= |a| && (forall k :: 0 <= k < |b| ==> a[k] == b[k]) && j <= i <= |b|
    ensures a[j..i] == b[j..i]
  {
  }

  /** The loop of DivideByChar, over the formatted text and its sentinel. */
  method Divide(ghost s: string, c: char, argv: Rows, row: int, col: nat,
                buf: array<char>, len: nat, ghost text: string) returns (ret: nat)
    requires 1 <= col && argv.Apart(row, col) && buf != argv.cells
    requires text == Formatted(s, c) + [c] && Formatted(s, c) != "" && |text| == len + 1
    requires len < buf.Length && buf[..len + 1] == text
    modifies argv.cells
    ensures var ws := Words(s, c);
            && ret == (if row <= 0 then 0 else if row < |ws| then row else |ws|)
            && Filled(argv, ret, col, ws, old(argv.cells[..]), argv.cells[..])
  {
    hide Words, Formatted, RowHolds, Filled, Rows.Apart;
    FewerApart(argv, row, col);
    ghost var (ws, before) := (Words(s, c), argv.cells[..]);
    var i, j := 0, 0;
    ret := 0;
    WordsOfNothing(c);
    assert text[..0] == "";
    NoneFilled(argv, col, ws, before);
    assert forall k :: 0 <= k <= len ==> buf[k] == buf[..len + 1][k];
    while i <= len && ret < row
      invariant 0 <= j <= i <= len + 1 && ret <= |ws| && (row <= 0 ==> ret == 0) && (row > 0 ==> ret <= row)
      invariant (j == 0 || text[j - 1] == c) && forall k :: j <= k < i ==> text[k] != c
      invariant Words(text[..j], c) == ws[..ret]
      invariant forall k :: 0 <= k <= len ==> buf[k] == text[k]
      invariant Filled(argv, ret, col, ws, before, argv.cells[..])
      decreases len + 1 - i
    {
      if buf[i] == c {
        NextWord(s, c, text, j, i, ret);
        SameSlice(buf[..], text, j, i);
        ghost var mid := argv.cells[..];
        PutWord(argv.cells, argv.start[ret], col, buf, j, i);
        RowsNext(argv, row, col, ws, ret, before, mid, argv.cells[..]);
        j := i + 1;
        ret := ret + 1;
      }
      i := i + 1;
    }
    if i == len + 1 {
      assert text[len] == c && j == i;
      WordsOfText(s, c, text);
      assert text[..j] == text;
    }
  }

  /** The part of DivideByChar for arguments that are not null. */
  method DivideLine(line: CString, c: char, argv: Rows, row: int, col: nat) returns (ret: nat)
    requires 1 <= col && argv.Apart(row, col)
    modifies argv.cells
    ensures var ws := Words(line, c);
            && ret == (if row <= 0 then 0 else if row < |ws| then row else |ws|)
            && Filled(argv, ret, col, ws, old(argv.cells[..]), argv.cells[..])
  {
    hide Words, Join, Formatted;
    ret := 0;
    var buf := FormatByChar(Some(line), c);
    WordCount(line, c);
    WordsOfNothing(c);
    if buf != null {
      ghost var t := Formatted(line, c);
      FormattedLacks(line, c, NUL);
      assert buf[|t|] == NUL;
      var len := StrLen(buf, 0);
      OneLength(buf[..], 0, t, len);
      if len != 0 {
        buf[len] := c;
        ghost var text := t + [c];
        assert buf[..len + 1] == text;
        ret := Divide(line, c, argv, row, col, buf, len, text);
      }
    }
  }

  /** DivideByChar, into rows of `col` characters each. */
  method DivideByChar(line: Option<CString>, c: char, argv: Rows?, row: int, col: nat) returns (ret: nat)
    requires 1 <= col && (argv != null ==> argv.Apart(row, col))
    modifies if argv == null then {} else {argv.cells}
    ensures line == None || argv == null ==> ret == 0
    ensures line.Some? && argv != null ==>
              var ws := Words(line.value, c);
              && ret == (if row <= 0 then 0 else if row < |ws| then row else |ws|)
              && Filled(argv, ret, col, ws, old(argv.cells[..]), argv.cells[..])
              && forall r :: 0 <= r < ret ==>
                   var (at, n) := (argv.start[r], if |ws[r]| < col then |ws[r]| else col - 1);
                   && argv.cells[at..at + n] == ws[r][..n] && argv.cells[at + n] == NUL
                   && argv.cells[at + n + 1..at + col] == old(argv.cells[at + n + 1..at + col])
    ensures argv != null && line == None ==> argv.cells[..] == old(argv.cells[..])
  {
    hide Words, Filled;
    ret := 0;
    if line.Some? && argv != null {
      ghost var before := argv.cells[..];
      ret := DivideLine(line.value, c, argv, row, col);
      FewerApart(argv, row, col);
      RowCells(argv, ret, col, Words(line.value, c), before, argv.cells[..]);
    }
  }

  /** On a block from Malloc2d, DivideByChar changes no cell but the first `n * col`, where `n` is its result. */
  lemma {:induction false} FirstRows(argv: Rows, row: nat, col: nat, n: nat, x: nat)
    requires n <= row == argv.start.Length && forall r :: 0 <= r < row ==> argv.start[r] == r * col
    ensures OutOfRows(argv, n, col, x) <==> n * col <= x
  {
    if n > 0 {
      FirstRows(argv, row, col, n - 1, x);
      assert n * col == (n - 1) * col + col;
      assert OutOfRows(argv, n, col, x) <==>
        OutOfRows(argv, n - 1, col, x) && !(argv.start[n - 1] <= x < argv.start[n - 1] + col);
    }
  }
}

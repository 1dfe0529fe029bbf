/**
 * The layout reader for preference files: blank lines are dropped, the
 * remaining lines are stripped, the first gives n, the next n lines are the
 * hospital preference rows and the n after those the student preference rows.
 *
 * Python's whitespace test, `str.strip()` and `str.split()` are modelled
 * here; turning one token into an integer (Python's `int`) is a parameter
 * `parse` of the reader, returning None where `int` raises ValueError.
 */
module Reader {

  datatype Option<T> = None | Some(value: T)

  /** Why the reader fails: ValueError on an empty file or a bad integer, IndexError on a missing line. */
  datatype ReadError =
    | EmptyInput
    | BadInteger(index: nat)
    | MissingLine(index: nat)

  datatype Result<T> = Ok(value: T) | Err(error: ReadError)

  /** What the reader returns: n and the two preference tables. */
  datatype Input = Input(n: int, hospitalPrefs: seq<seq<int>>, studentPrefs: seq<seq<int>>)

  /** Python's `str.isspace` on one character. */
  predicate IsSpace(c: char) {
    var k := c as int;
    || 0x09 <= k <= 0x0D
    || 0x1C <= k <= 0x20
    || k == 0x85 || k == 0xA0 || k == 0x1680
    || 0x2000 <= k <= 0x200A
    || k == 0x2028 || k == 0x2029 || k == 0x202F || k == 0x205F || k == 0x3000
  }

  /**
   * The ASCII whitespace of `str.isspace`: tab, line feed, vertical tab, form
   * feed, carriage return, the four separators U+001C..U+001F and space. The
   * zero-width space U+200B is not whitespace.
   */
  lemma IsSpaceAscii(c: char)
    ensures c as int < 0x80 ==>
              (IsSpace(c) <==> c in "\t\n\U{0B}\U{0C}\r\U{1C}\U{1D}\U{1E}\U{1F} ")
    ensures c == '\U{200B}' ==> !IsSpace(c)
  {
  }

  /** The line holds nothing but whitespace. */
  predicate IsBlank(s: string) {
    forall i :: 0 <= i < |s| ==> IsSpace(s[i])
  }

  /** s without its leading whitespace. */
  function TrimLeft(s: string): (r: string)
    ensures |r| <= |s|
    ensures r != [] ==> !IsSpace(r[0])
    decreases |s|
  {
    if s != [] && IsSpace(s[0]) then TrimLeft(s[1..]) else s
  }

  /** TrimLeft removes a blank prefix and keeps the rest. */
  lemma {:induction false} TrimLeftDrops(s: string)
    ensures TrimLeft(s) == s[|s| - |TrimLeft(s)|..]
    ensures IsBlank(s[..|s| - |TrimLeft(s)|])
    decreases |s|
  {
    if s != [] && IsSpace(s[0]) {
      TrimLeftDrops(s[1..]);
      var k := |s| - |TrimLeft(s)|;
      assert s[..k] == [s[0]] + s[1..][..k - 1];
    }
  }

  /** s without its trailing whitespace. */
  function TrimRight(s: string): (r: string)
    ensures |r| <= |s| && r == s[..|r|]
    ensures r != [] ==> !IsSpace(r[|r| - 1])
    decreases |s|
  {
    if s != [] && IsSpace(s[|s| - 1]) then TrimRight(s[..|s| - 1]) else s
  }

  /** TrimRight removes a blank suffix and keeps the rest. */
  lemma {:induction false} TrimRightDrops(s: string)
    ensures IsBlank(s[|TrimRight(s)|..])
    decreases |s|
  {
    if s != [] && IsSpace(s[|s| - 1]) {
      TrimRightDrops(s[..|s| - 1]);
      var k := |TrimRight(s)|;
      assert s[k..] == s[..|s| - 1][k..] + [s[|s| - 1]];
    }
  }

  /** Python's `str.strip()`: s without leading and trailing whitespace. */
  function Strip(s: string): (r: string)
    ensures r != [] ==> !IsSpace(r[0]) && !IsSpace(r[|r| - 1])
  {
    TrimRight(TrimLeft(s))
  }

  /**
   * Strip keeps a contiguous middle part of s: what it removes in front and
   * behind is whitespace only.
   */
  lemma StripShape(s: string)
    ensures exists i, j :: 0 <= i <= j <= |s| && Strip(s) == s[i..j] && IsBlank(s[..i]) && IsBlank(s[j..])
  {
    var t := TrimLeft(s);
    var r := TrimRight(t);
    TrimLeftDrops(s);
    TrimRightDrops(t);
    var i := |s| - |t|;
    assert r == s[i..i + |r|];
    assert s[i + |r|..] == t[|r|..];
  }

  /** A line strips to the empty string exactly when it is blank. */
  lemma StripEmptyIffBlank(s: string)
    ensures Strip(s) == [] <==> IsBlank(s)
  {
    StripShape(s);
    var r := Strip(s);
    var i, j :| 0 <= i <= j <= |s| && r == s[i..j] && IsBlank(s[..i]) && IsBlank(s[j..]);
    if r == [] {
      forall k | 0 <= k < |s| ensures IsSpace(s[k]) {
        if k < i { assert s[..i][k] == s[k]; } else { assert s[j..][k - j] == s[k]; }
      }
    }
  }

  /**
   * The comprehension that keeps the stripped form of every line that is not
   * whitespace only, in order.
   */
  function NonBlank(lines: seq<string>): (data: seq<string>)
    ensures |data| <= |lines|
    ensures forall k :: 0 <= k < |data| ==> data[k] != []
    decreases |lines|
  {
    if lines == [] then []
    else
      var t := Strip(lines[0]);
      (if t == [] then [] else [t]) + NonBlank(lines[1..])
  }

  /** Filtering distributes over concatenation of the input lines. */
  lemma {:induction false} NonBlankAppend(a: seq<string>, b: seq<string>)
    ensures NonBlank(a + b) == NonBlank(a) + NonBlank(b)
    decreases |a|
  {
    if a != [] {
      assert (a + b)[1..] == a[1..] + b;
      NonBlankAppend(a[1..], b);
    } else {
      assert a + b == b;
    }
  }

  /** No line survives the filter exactly when every line is whitespace only. */
  lemma {:induction false} NonBlankEmptyIff(lines: seq<string>)
    ensures NonBlank(lines) == [] <==> forall k :: 0 <= k < |lines| ==> IsBlank(lines[k])
    decreases |lines|
  {
    if lines != [] {
      NonBlankEmptyIff(lines[1..]);
      StripEmptyIffBlank(lines[0]);
      assert forall k :: 1 <= k < |lines| ==> lines[k] == lines[1..][k - 1];
    }
  }

  /** The length of the run of non-whitespace characters that starts s. */
  function WordLength(s: string): (k: nat)
    ensures k <= |s|
    ensures forall i :: 0 <= i < k ==> !IsSpace(s[i])
    ensures k < |s| ==> IsSpace(s[k])
    decreases |s|
  {
    if s == [] || IsSpace(s[0]) then 0 else 1 + WordLength(s[1..])
  }

  /** A token of `str.split()`: non-empty and free of whitespace. */
  predicate IsWord(w: string) {
    w != [] && forall i :: 0 <= i < |w| ==> !IsSpace(w[i])
  }

  /** Python's `str.split()` with no separator: the maximal runs of non-whitespace characters. */
  function Split(s: string): (tokens: seq<string>)
    ensures forall k :: 0 <= k < |tokens| ==> IsWord(tokens[k])
    decreases |s|
  {
    var t := TrimLeft(s);
    if t == [] then []
    else
      var w := WordLength(t);
      var word := t[..w];
      assert IsWord(word);
      [word] + Split(t[w..])
  }

  /** A line has no tokens exactly when it is whitespace only. */
  lemma SplitEmptyIffBlank(s: string)
    ensures Split(s) == [] <==> IsBlank(s)
  {
    TrimLeftDrops(s);
    var t := TrimLeft(s);
    if t == [] {
      assert s[..|s|] == s;
    } else {
      assert s[|s| - |t|] == t[0];
    }
  }

  /** `list(map(int, tokens))`: every token converted, or None at the first that fails. */
  function ParseAll(tokens: seq<string>, parse: string -> Option<int>): (r: Option<seq<int>>)
    ensures r.Some? <==> forall k :: 0 <= k < |tokens| ==> parse(tokens[k]).Some?
    ensures r.Some? ==> |r.value| == |tokens|
    ensures r.Some? ==> forall k :: 0 <= k < |tokens| ==> parse(tokens[k]) == Some(r.value[k])
    decreases |tokens|
  {
    if tokens == [] then Some([])
    else
      match parse(tokens[0])
      case None => None
      case Some(x) =>
        match ParseAll(tokens[1..], parse)
        case None => None
        case Some(xs) => Some([x] + xs)
  }

  /**
   * One preference row, `list(map(int, line.split()))`: the integers of the
   * whitespace-separated tokens of a line, read token by token.
   */
  function ParseRow(line: string, parse: string -> Option<int>): (r: Option<seq<int>>)
    ensures r == Some([]) <==> IsBlank(line)
    ensures r.Some? ==> |r.value| <= |line|
    decreases |line|
  {
    TrimLeftDrops(line);
    var t := TrimLeft(line);
    if t == [] then
      assert line[..|line|] == line;
      Some([])
    else
      var w := WordLength(t);
      assert line[|line| - |t|] == t[0];
      match parse(t[..w])
      case None => None
      case Some(x) =>
        match ParseRow(t[w..], parse)
        case None => None
        case Some(xs) => Some([x] + xs)
  }

  /** Reading a row token by token is converting every token of `Split`, failing if any fails. */
  lemma {:induction false} ParseRowSplits(line: string, parse: string -> Option<int>)
    ensures ParseRow(line, parse) == ParseAll(Split(line), parse)
    decreases |line|
  {
    var t := TrimLeft(line);
    if t != [] {
      var w := WordLength(t);
      ParseRowSplits(t[w..], parse);
      var tokens := Split(line);
      assert tokens == [t[..w]] + Split(t[w..]);
      assert tokens[1..] == Split(t[w..]);
    }
  }

  /**
   * The row every non-blank line parses to, in order. Parsing is pure, so
   * the reader's rows can be read off this sequence.
   */
  function ParseLines(data: seq<string>, parse: string -> Option<int>): (rows: seq<Option<seq<int>>>)
    ensures |rows| == |data|
    decreases |data|
  {
    if data == [] then [] else [ParseRow(data[0], parse)] + ParseLines(data[1..], parse)
  }

  /** Entry i of the parsed lines is the parse of line i. */
  lemma {:induction false} ParseLinesAt(data: seq<string>, parse: string -> Option<int>, i: nat)
    requires i < |data|
    ensures ParseLines(data, parse)[i] == ParseRow(data[i], parse)
    decreases |data|
  {
    if i > 0 {
      ParseLinesAt(data[1..], parse, i - 1);
    }
  }

  /** Row i exists and parsed. */
  predicate IsRead(rows: seq<Option<seq<int>>>, i: nat) {
    i < |rows| && rows[i].Some?
  }

  /** The row at index i: IndexError past the end, ValueError if that line did not parse. */
  function RowAt(rows: seq<Option<seq<int>>>, i: nat): Result<seq<int>> {
    if i >= |rows| then Err(MissingLine(i))
    else
      match rows[i]
      case None => Err(BadInteger(i))
      case Some(row) => Ok(row)
  }

  /** Rows lo..hi-1 read in order, failing at the first row that fails. */
  function Rows(rows: seq<Option<seq<int>>>, lo: nat, hi: nat): Result<seq<seq<int>>>
    decreases hi
  {
    if hi <= lo then Ok([])
    else
      match Rows(rows, lo, hi - 1)
      case Err(e) => Err(e)
      case Ok(done) =>
        match RowAt(rows, hi - 1)
        case Err(e) => Err(e)
        case Ok(row) => Ok(done + [row])
  }

  /**
   * The two tables for a given n: none when n <= 0, otherwise rows 1..n for
   * the hospitals and rows n+1..2n for the students.
   */
  function Tables(rows: seq<Option<seq<int>>>, n: int): Result<Input> {
    if n <= 0 then Ok(Input(n, [], []))
    else
      match Rows(rows, 1, n + 1)
      case Err(e) => Err(e)
      case Ok(hospitalPrefs) =>
        match Rows(rows, n + 1, 2 * n + 1)
        case Err(e) => Err(e)
        case Ok(studentPrefs) => Ok(Input(n, hospitalPrefs, studentPrefs))
  }

  /** The result the reader produces from the lines of a file. */
  function ReadSpec(lines: seq<string>, parse: string -> Option<int>): Result<Input> {
    ReadNonBlank(NonBlank(lines), parse)
  }

  /** What the reader makes of the non-blank lines: n from the first, then the tables. */
  function ReadNonBlank(data: seq<string>, parse: string -> Option<int>): Result<Input> {
    if data == [] then Err(EmptyInput)
    else
      match parse(data[0])
      case None => Err(BadInteger(0))
      case Some(n) => Tables(ParseLines(data, parse), n)
  }

  /**
   * Reading rows lo..hi-1 succeeds exactly when each of those rows exists
   * and parsed; the result then has one row per line, row k coming from
   * line lo + k.
   */
  lemma {:induction false} RowsOk(rows: seq<Option<seq<int>>>, lo: nat, hi: nat)
    requires lo <= hi
    ensures Rows(rows, lo, hi).Ok? <==> forall i :: lo <= i < hi ==> IsRead(rows, i)
    ensures Rows(rows, lo, hi).Ok? ==> |Rows(rows, lo, hi).value| == hi - lo
    ensures Rows(rows, lo, hi).Ok? ==>
              forall k :: 0 <= k < hi - lo ==> rows[lo + k] == Some(Rows(rows, lo, hi).value[k])
    decreases hi
  {
    if lo < hi {
      RowsOk(rows, lo, hi - 1);
      if Rows(rows, lo, hi).Ok? {
        var done := Rows(rows, lo, hi - 1).value;
        var all := Rows(rows, lo, hi).value;
        assert all == done + [rows[hi - 1].value];
        forall k | 0 <= k < hi - lo ensures rows[lo + k] == Some(all[k]) {
          if k < hi - 1 - lo {
            assert all[k] == done[k];
          }
        }
      } else if Rows(rows, lo, hi - 1).Ok? {
        assert !IsRead(rows, hi - 1);
      }
    }
  }

  /**
   * A failure while reading rows lo..hi-1 names the first failing row: all
   * rows before it exist and parsed, and the error is IndexError when that
   * row is past the end and ValueError when it did not parse.
   */
  lemma {:induction false} RowsFirstError(rows: seq<Option<seq<int>>>, lo: nat, hi: nat)
    requires Rows(rows, lo, hi).Err?
    ensures exists i :: lo <= i < hi &&
              (forall j :: lo <= j < i ==> IsRead(rows, j)) &&
              (i < |rows| ==> rows[i].None?) &&
              Rows(rows, lo, hi).error == if i >= |rows| then MissingLine(i) else BadInteger(i)
    decreases hi
  {
    var e := Rows(rows, lo, hi).error;
    if Rows(rows, lo, hi - 1).Err? {
      assert Rows(rows, lo, hi - 1).error == e;
      RowsFirstError(rows, lo, hi - 1);
      var i :| lo <= i < hi - 1 &&
               (forall j :: lo <= j < i ==> IsRead(rows, j)) &&
               (i < |rows| ==> rows[i].None?) &&
               e == if i >= |rows| then MissingLine(i) else BadInteger(i);
    } else {
      RowsOk(rows, lo, hi - 1);
      var i := hi - 1;
      assert e == if i >= |rows| then MissingLine(i) else BadInteger(i);
      assert forall j :: lo <= j < i ==> IsRead(rows, j);
    }
  }

  /** Rows after hi - 1 do not change a successful read of rows lo..hi-1. */
  lemma {:induction false} RowsIgnoreTail(rows: seq<Option<seq<int>>>, more: seq<Option<seq<int>>>,
                                          lo: nat, hi: nat)
    requires Rows(rows, lo, hi).Ok?
    ensures Rows(rows + more, lo, hi) == Rows(rows, lo, hi)
    decreases hi
  {
    if lo < hi {
      RowsIgnoreTail(rows, more, lo, hi - 1);
      assert (rows + more)[hi - 1] == rows[hi - 1];
    }
  }

  /** Once reading rows lo..mid-1 has failed, reading on to hi - 1 fails with the same error. */
  lemma {:induction false} RowsErrorPersists(rows: seq<Option<seq<int>>>, lo: nat, mid: nat, hi: nat)
    requires mid <= hi && Rows(rows, lo, mid).Err?
    ensures Rows(rows, lo, hi) == Rows(rows, lo, mid)
    decreases hi
  {
    if mid < hi {
      RowsErrorPersists(rows, lo, mid, hi - 1);
    }
  }

  /**
   * For n > 0 the tables are read exactly when rows 1..2n all exist and
   * parsed; then there are n hospital rows, row i coming from line 1 + i,
   * and n student rows, row j coming from line n + 1 + j.
   */
  lemma TablesOk(rows: seq<Option<seq<int>>>, n: int)
    requires n > 0
    ensures Tables(rows, n).Ok? <==> forall i :: 1 <= i <= 2 * n ==> IsRead(rows, i)
    ensures Tables(rows, n).Ok? ==>
              var t := Tables(rows, n).value;
              && t.n == n && |t.hospitalPrefs| == n && |t.studentPrefs| == n
              && (forall i :: 0 <= i < n ==> rows[1 + i] == Some(t.hospitalPrefs[i]))
              && (forall j :: 0 <= j < n ==> rows[n + 1 + j] == Some(t.studentPrefs[j]))
    ensures Tables(rows, n) != Err(EmptyInput)
  {
    RowsOk(rows, 1, n + 1);
    RowsOk(rows, n + 1, 2 * n + 1);
    var hosp, stud := Rows(rows, 1, n + 1), Rows(rows, n + 1, 2 * n + 1);
    if hosp.Ok? && stud.Ok? {
      assert Tables(rows, n) == Ok(Input(n, hosp.value, stud.value));
    } else if hosp.Ok? {
      assert Tables(rows, n) == Err(stud.error);
      RowsFirstError(rows, n + 1, 2 * n + 1);
    } else {
      assert Tables(rows, n) == Err(hosp.error);
      RowsFirstError(rows, 1, n + 1);
      var i :| 1 <= i < n + 1 && !IsRead(rows, i);
    }
  }

  /** Non-blank line i exists and parses as a row of integers. */
  predicate LineReads(data: seq<string>, i: nat, parse: string -> Option<int>) {
    i < |data| && ParseRow(data[i], parse).Some?
  }

  /**
   * The layout of a successful read of the non-blank lines: n is the integer
   * on the first line, there are n hospital rows parsed from lines 1..n and
   * n student rows parsed from lines n+1..2n (no rows at all when n <= 0).
   */
  lemma NonBlankLayout(data: seq<string>, parse: string -> Option<int>)
    requires ReadNonBlank(data, parse).Ok?
    ensures var r := ReadNonBlank(data, parse).value;
      && data != []
      && parse(data[0]) == Some(r.n)
      && |r.hospitalPrefs| == |r.studentPrefs| == (if r.n <= 0 then 0 else r.n)
      && (r.n > 0 ==> |data| >= 2 * r.n + 1)
      && (forall i :: 0 <= i < |r.hospitalPrefs| ==>
            ParseRow(data[1 + i], parse) == Some(r.hospitalPrefs[i]))
      && (forall j :: 0 <= j < |r.studentPrefs| ==>
            ParseRow(data[r.n + 1 + j], parse) == Some(r.studentPrefs[j]))
  {
    var rows := ParseLines(data, parse);
    var n := parse(data[0]).value;
    if n > 0 {
      TablesOk(rows, n);
      assert IsRead(rows, 2 * n);
      var t := Tables(rows, n).value;
      forall i | 0 <= i < n ensures ParseRow(data[1 + i], parse) == Some(t.hospitalPrefs[i]) {
        ParseLinesAt(data, parse, 1 + i);
      }
      forall j | 0 <= j < n ensures ParseRow(data[n + 1 + j], parse) == Some(t.studentPrefs[j]) {
        ParseLinesAt(data, parse, n + 1 + j);
      }
    }
  }

  /**
   * Reading the non-blank lines fails exactly when there are none, the first
   * is not an integer, or some line among lines 1..2n is missing or does not
   * parse.
   */
  lemma NonBlankFailsIff(data: seq<string>, parse: string -> Option<int>)
    ensures ReadNonBlank(data, parse) == Err(EmptyInput) <==> data == []
    ensures ReadNonBlank(data, parse).Err? <==>
              || data == []
              || parse(data[0]).None?
              || exists i :: 1 <= i <= 2 * parse(data[0]).value && !LineReads(data, i, parse)
  {
    if data != [] && parse(data[0]).Some? {
      var rows := ParseLines(data, parse);
      var n := parse(data[0]).value;
      assert ReadNonBlank(data, parse) == Tables(rows, n);
      if n > 0 {
        TablesOk(rows, n);
        if Tables(rows, n).Err? {
          var i :| 1 <= i <= 2 * n && !IsRead(rows, i);
          if i < |data| {
            ParseLinesAt(data, parse, i);
          }
          assert !LineReads(data, i, parse);
        } else {
          forall i | 1 <= i <= 2 * n ensures LineReads(data, i, parse) {
            assert IsRead(rows, i);
            ParseLinesAt(data, parse, i);
          }
        }
      }
    }
  }

  /** Row i of the parsed lines was read exactly when non-blank line i exists and parses. */
  lemma IsReadLineReads(data: seq<string>, parse: string -> Option<int>, i: nat)
    ensures IsRead(ParseLines(data, parse), i) <==> LineReads(data, i, parse)
  {
    if i < |data| {
      ParseLinesAt(data, parse, i);
    }
  }

  /**
   * Which error a failed read of the non-blank lines reports: ValueError at
   * line 0 when the first line is not an integer; otherwise the first line i
   * among lines 1..2n that does not read, with IndexError when it is past the
   * end and ValueError when it does not parse.
   */
  lemma NonBlankFirstError(data: seq<string>, parse: string -> Option<int>)
    requires ReadNonBlank(data, parse).Err?
    ensures data != [] && parse(data[0]).None? ==> ReadNonBlank(data, parse) == Err(BadInteger(0))
    ensures data != [] && parse(data[0]).Some? ==>
              exists i :: 1 <= i <= 2 * parse(data[0]).value &&
                (forall j :: 1 <= j < i ==> LineReads(data, j, parse)) &&
                !LineReads(data, i, parse) &&
                ReadNonBlank(data, parse).error == if i >= |data| then MissingLine(i) else BadInteger(i)
  {
    if data != [] && parse(data[0]).Some? {
      var rows := ParseLines(data, parse);
      var n := parse(data[0]).value;
      assert ReadNonBlank(data, parse) == Tables(rows, n);
      var e := ReadNonBlank(data, parse).error;
      var hosp := Rows(rows, 1, n + 1);
      var lo := if hosp.Err? then 1 else n + 1;
      var hi := if hosp.Err? then n + 1 else 2 * n + 1;
      if hosp.Ok? {
        RowsOk(rows, 1, n + 1);
      }
      assert Rows(rows, lo, hi).Err? && Rows(rows, lo, hi).error == e;
      RowsFirstError(rows, lo, hi);
      var i :| lo <= i < hi &&
               (forall j :: lo <= j < i ==> IsRead(rows, j)) &&
               (i < |rows| ==> rows[i].None?) &&
               e == if i >= |rows| then MissingLine(i) else BadInteger(i);
      forall j | 1 <= j < i ensures LineReads(data, j, parse) {
        IsReadLineReads(data, parse, j);
      }
      IsReadLineReads(data, parse, i);
    }
  }

  /** The layout of a successful read, stated on the lines of the file. */
  lemma ReadLayout(lines: seq<string>, parse: string -> Option<int>)
    requires ReadSpec(lines, parse).Ok?
    ensures var data, r := NonBlank(lines), ReadSpec(lines, parse).value;
      && data != []
      && parse(data[0]) == Some(r.n)
      && |r.hospitalPrefs| == |r.studentPrefs| == (if r.n <= 0 then 0 else r.n)
      && (r.n > 0 ==> |data| >= 2 * r.n + 1)
      && (forall i :: 0 <= i < |r.hospitalPrefs| ==>
            ParseRow(data[1 + i], parse) == Some(r.hospitalPrefs[i]))
      && (forall j :: 0 <= j < |r.studentPrefs| ==>
            ParseRow(data[r.n + 1 + j], parse) == Some(r.studentPrefs[j]))
  {
    var data := NonBlank(lines);
    assert ReadSpec(lines, parse) == ReadNonBlank(data, parse);
    NonBlankLayout(data, parse);
  }

  /**
   * The reader fails exactly when every line is blank, the first non-blank
   * line is not an integer, or some line among non-blank lines 1..2n is
   * missing or does not parse; the empty-input error is raised exactly when
   * every line is blank.
   */
  lemma ReadFailsIff(lines: seq<string>, parse: string -> Option<int>)
    ensures ReadSpec(lines, parse) == Err(EmptyInput) <==>
              forall k :: 0 <= k < |lines| ==> IsBlank(lines[k])
    ensures ReadSpec(lines, parse).Err? <==>
              var data := NonBlank(lines);
              || data == []
              || parse(data[0]).None?
              || exists i :: 1 <= i <= 2 * parse(data[0]).value && !LineReads(data, i, parse)
  {
    NonBlankEmptyIff(lines);
    NonBlankFailsIff(NonBlank(lines), parse);
  }

  /**
   * Which error a failed read of a file reports, stated on its non-blank
   * lines: ValueError at line 0 for a first line that is not an integer;
   * otherwise IndexError or ValueError at the first non-blank line among
   * 1..2n that is missing or does not parse.
   */
  lemma ReadFirstError(lines: seq<string>, parse: string -> Option<int>)
    requires ReadSpec(lines, parse).Err?
    ensures var data := NonBlank(lines);
      data != [] && parse(data[0]).None? ==> ReadSpec(lines, parse) == Err(BadInteger(0))
    ensures var data := NonBlank(lines);
      data != [] && parse(data[0]).Some? ==>
        exists i :: 1 <= i <= 2 * parse(data[0]).value &&
          (forall j :: 1 <= j < i ==> LineReads(data, j, parse)) &&
          !LineReads(data, i, parse) &&
          ReadSpec(lines, parse).error == if i >= |data| then MissingLine(i) else BadInteger(i)
  {
    var data := NonBlank(lines);
    assert ReadSpec(lines, parse) == ReadNonBlank(data, parse);
    NonBlankFirstError(data, parse);
  }

  /** Rows appended after the parsed lines do not change their parse. */
  lemma {:induction false} ParseLinesAppend(a: seq<string>, b: seq<string>, parse: string -> Option<int>)
    ensures ParseLines(a + b, parse) == ParseLines(a, parse) + ParseLines(b, parse)
  {
    var whole := ParseLines(a + b, parse);
    var parts := ParseLines(a, parse) + ParseLines(b, parse);
    forall i | 0 <= i < |whole| ensures whole[i] == parts[i] {
      ParseLinesAt(a + b, parse, i);
      if i < |a| {
        assert (a + b)[i] == a[i];
        ParseLinesAt(a, parse, i);
      } else {
        assert (a + b)[i] == b[i - |a|];
        ParseLinesAt(b, parse, i - |a|);
      }
    }
  }

  /** Rows after row 2n do not change successfully read tables. */
  lemma TablesIgnoreTail(rows: seq<Option<seq<int>>>, tail: seq<Option<seq<int>>>, n: int)
    requires Tables(rows, n).Ok?
    ensures Tables(rows + tail, n) == Tables(rows, n)
  {
    if n > 0 {
      RowsIgnoreTail(rows, tail, 1, n + 1);
      RowsIgnoreTail(rows, tail, n + 1, 2 * n + 1);
    }
  }

  /** Non-blank lines after the 2n+1 that were read do not affect a successful read. */
  lemma NonBlankIgnoresTail(data: seq<string>, more: seq<string>, parse: string -> Option<int>)
    requires ReadNonBlank(data, parse).Ok?
    ensures ReadNonBlank(data + more, parse) == ReadNonBlank(data, parse)
  {
    ParseLinesAppend(data, more, parse);
    assert (data + more)[0] == data[0];
    var n := parse(data[0]).value;
    TablesIgnoreTail(ParseLines(data, parse), ParseLines(more, parse), n);
  }

  /** Lines after the 2n+1 non-blank lines that were read do not affect a successful read. */
  lemma ReadIgnoresTrailingLines(lines: seq<string>, extra: seq<string>, parse: string -> Option<int>)
    requires ReadSpec(lines, parse).Ok?
    ensures ReadSpec(lines + extra, parse) == ReadSpec(lines, parse)
  {
    NonBlankAppend(lines, extra);
    NonBlankIgnoresTail(NonBlank(lines), NonBlank(extra), parse);
  }

  /**
   * One of the reader's two row loops: for i in lo..hi-1, parse non-blank
   * line i and append it, failing at the first line that is missing or
   * does not parse.
   */
  method ReadRows(data: seq<string>, lo: nat, hi: nat, parse: string -> Option<int>)
    returns (r: Result<seq<seq<int>>>)
    requires lo <= hi
    ensures r == Rows(ParseLines(data, parse), lo, hi)
  {
    ghost var rows := ParseLines(data, parse);
    var prefs: seq<seq<int>> := [];
    for i := lo to hi
      invariant Rows(rows, lo, i) == Ok(prefs)
    {
      if i >= |data| {
        assert Rows(rows, lo, i + 1) == Err(MissingLine(i));
        RowsErrorPersists(rows, lo, i + 1, hi);
        return Err(MissingLine(i));
      }
      var row := ParseRow(data[i], parse);
      ParseLinesAt(data, parse, i);
      if row.None? {
        assert Rows(rows, lo, i + 1) == Err(BadInteger(i));
        RowsErrorPersists(rows, lo, i + 1, hi);
        return Err(BadInteger(i));
      }
      prefs := prefs + [row.value];
    }
    return Ok(prefs);
  }

  /**
   * The reader: filter the lines, read n, then read the hospital rows
   * (lines 1..n) and the student rows (lines n+1..2n).
   */
  method ReadData(lines: seq<string>, parse: string -> Option<int>) returns (r: Result<Input>)
    ensures r == ReadSpec(lines, parse)
    ensures r == Err(EmptyInput) <==> forall k :: 0 <= k < |lines| ==> IsBlank(lines[k])
    ensures r.Ok? ==>
              |r.value.hospitalPrefs| == |r.value.studentPrefs| ==
                (if r.value.n <= 0 then 0 else r.value.n)
  {
    NonBlankEmptyIff(lines);
    var data := NonBlank(lines);
    assert ReadSpec(lines, parse) == ReadNonBlank(data, parse);
    if data == [] {
      return Err(EmptyInput);
    }
    var first := parse(data[0]);
    if first.None? {
      return Err(BadInteger(0));
    }
    var n := first.value;
    if n <= 0 {
      // both row ranges are empty
      return Ok(Input(n, [], []));
    }
    ghost var rows := ParseLines(data, parse);
    assert ReadNonBlank(data, parse) == Tables(rows, n);
    TablesOk(rows, n);
    var hospitalPrefs := ReadRows(data, 1, n + 1, parse);
    if hospitalPrefs.Err? {
      return Err(hospitalPrefs.error);
    }
    var studentPrefs := ReadRows(data, n + 1, 2 * n + 1, parse);
    if studentPrefs.Err? {
      return Err(studentPrefs.error);
    }
    return Ok(Input(n, hospitalPrefs.value, studentPrefs.value));
  }
}

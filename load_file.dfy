// Reading a load file (executor_insert.h): the file is read through two
// buffers of 4096 bytes. getchar_from_buffer hands out the bytes of the
// current buffer; when it is used up the other buffer (filled in advance)
// becomes current and the used one is refilled with the next block. The
// file's contents are a value here; fopen and fread are the Reader's
// constructor and FillBuffer.
module LoadFile {
  import opened Wrappers

  /** The size of each of the two buffers. */
  const BLOCK: nat := 4096
  /** EOF, as the char getchar_from_buffer returns. */
  const EOF: int := -1
  const NEWLINE: int := 10
  const COMMA: int := 44

  function Min(a: nat, b: nat): nat
  {
    if a <= b then a else b
  }

  /** A byte read as a (signed) char: the byte 0xff reads as EOF. */
  function AsChar(b: byte): (c: int)
    ensures -128 <= c < 128 && (c == EOF <==> b == 255)
  {
    if b < 128 then b else b - 256
  }

  /** The byte a char is stored as in a char buffer. */
  function ByteOf(c: int): (b: byte)
    requires -128 <= c < 128
    ensures AsChar(b) == c
  {
    if c < 0 then c + 256 else c
  }

  /** The char the getchar_from_buffer call after i bytes were read returns: EOF past the end. */
  function Stream(file: seq<byte>, i: nat): (c: int)
    ensures -128 <= c < 128
    ensures c == EOF <==> i >= |file| || file[i] == 255
  {
    if i < |file| then AsChar(file[i]) else EOF
  }

  /** The number of bytes read once the char at i has been returned: EOF reads nothing. */
  function After(file: seq<byte>, i: nat): nat
  {
    if i < |file| then i + 1 else i
  }

  /** Block b of the file: what the (b+1)-th fread of BLOCK bytes returns. */
  function Block(file: seq<byte>, b: nat): (s: seq<byte>)
    ensures |s| <= BLOCK
    ensures |s| == Min(|file|, (b + 1) * BLOCK) - Min(|file|, b * BLOCK)
    ensures forall k :: 0 <= k < |s| ==> s[k] == file[b * BLOCK + k]
  {
    file[Min(|file|, b * BLOCK)..Min(|file|, (b + 1) * BLOCK)]
  }

  class Reader {
    /** The load file's contents. */
    const file: seq<byte>
    /** The position of the FILE* fread reads from. */
    var filePos: nat
    /** buffer[0] and buffer[1]. */
    const buf0: array<byte>
    const buf1: array<byte>
    /** buffer_remain_: how many bytes each buffer holds. */
    var remain: seq<nat>
    /** cur_buffer_idx_. */
    var curIdx: nat
    /** cur_pos_: the next byte of the current buffer. */
    var curPos: nat
    /** The block of the file the current buffer holds. */
    ghost var block: nat

    function Buf(i: nat): array<byte>
    {
      if i == 0 then buf0 else buf1
    }

    /** The number of bytes getchar_from_buffer has returned. */
    ghost function Consumed(): nat
      reads this
    {
      block * BLOCK + curPos
    }

    /** Buffer i holds block b of the file. */
    ghost predicate Holds(i: nat, b: nat)
      reads this, buf0, buf1
      requires |remain| == 2 && i < 2
    {
      remain[i] == |Block(file, b)| && remain[i] <= Buf(i).Length && Buf(i)[..remain[i]] == Block(file, b)
    }

    /**
     * The current buffer holds the current block, read up to curPos; the
     * other buffer holds the next block; fread has read up to the end of
     * the next block.
     */
    ghost predicate Valid()
      reads this, buf0, buf1
    {
      && buf0.Length == BLOCK && buf1.Length == BLOCK && buf0 != buf1
      && |remain| == 2 && curIdx < 2
      && Holds(curIdx, block) && Holds(1 - curIdx, block + 1)
      && curPos <= remain[curIdx]
      && block * BLOCK <= |file| && Consumed() <= |file|
      && filePos == Min(|file|, (block + 2) * BLOCK)
    }

    /** fopen, then fill_buffer twice: the first two blocks, nothing read yet. */
    constructor Open(file: seq<byte>)
      ensures Valid() && this.file == file && Consumed() == 0 && fresh(buf0) && fresh(buf1)
    {
      this.file := file;
      filePos := 0;
      buf0 := new byte[BLOCK];
      buf1 := new byte[BLOCK];
      remain := [0, 0];
      curIdx := 1;
      curPos := 0;
      block := 0;
      new;
      FillBuffer(0, 0);
      curIdx := 0;
      FillBuffer(1, 1);
    }

    /**
     * fill_buffer: fread of the next (at most) BLOCK bytes, block b of the
     * file, into the buffer that is not current.
     */
    method FillBuffer(ghost b: nat, ghost cur: nat)
      requires buf0.Length == BLOCK && buf1.Length == BLOCK && buf0 != buf1
      requires |remain| == 2 && curIdx < 2 && filePos == Min(|file|, b * BLOCK)
      requires cur > 0 ==> Holds(curIdx, cur - 1)
      modifies this`remain, this`filePos, Buf(1 - curIdx)
      ensures |remain| == 2 && remain[curIdx] == old(remain[curIdx]) && Holds(1 - curIdx, b)
      ensures cur > 0 ==> Holds(curIdx, cur - 1)
      ensures filePos == Min(|file|, (b + 1) * BLOCK)
    {
      var dst := Buf(1 - curIdx);
      var n := Min(BLOCK, |file| - filePos);
      forall k | 0 <= k < n {
        dst[k] := file[filePos + k];
      }
      remain := remain[1 - curIdx := n];
      filePos := filePos + n;
      assert dst[..n] == Block(file, b);
    }

    /**
     * getchar_from_buffer: the file's next byte as a char, or EOF (reading
     * nothing) once the whole file has been read.
     */
    method GetChar() returns (c: int)
      requires Valid()
      modifies this`curIdx, this`curPos, this`remain, this`filePos, this`block, buf0, buf1
      ensures Valid()
      ensures c == Stream(file, old(Consumed())) && Consumed() == After(file, old(Consumed()))
    {
      if curPos == BLOCK {
        NextBuffer();
      }
      if curPos == remain[curIdx] {
        AtEnd(file, block, curPos);
        return EOF;
      }
      c := TakeChar();
    }

    /** buffer[cur_buffer_idx_][cur_pos_++], a byte the current buffer still holds. */
    method TakeChar() returns (c: int)
      requires Valid() && curPos < remain[curIdx]
      modifies this`curPos
      ensures Valid()
      ensures c == Stream(file, old(Consumed())) && Consumed() == old(Consumed()) + 1
    {
      c := AsChar(Buf(curIdx)[curPos]);
      assert Buf(curIdx)[curPos] == Block(file, block)[curPos];
      curPos := curPos + 1;
    }

    /**
     * The current buffer used up: the other one, holding the next block,
     * becomes current, and the used one is refilled with the block after.
     */
    method NextBuffer()
      requires Valid() && curPos == BLOCK
      modifies this`curIdx, this`curPos, this`remain, this`filePos, this`block, buf0, buf1
      ensures Valid() && curPos == 0 && Consumed() == old(Consumed())
    {
      curPos := 0;
      curIdx := 1 - curIdx;
      block := block + 1;
      FillBuffer(block + 1, block + 1);
    }

    /**
     * The first line of the load file skipped, with the loop stopping at
     * EOF as well as at the newline (see SkipAsWritten for the loop as
     * written).
     */
    method SkipHeader()
      requires Valid()
      modifies this`curIdx, this`curPos, this`remain, this`filePos, this`block, buf0, buf1
      ensures Valid() && Consumed() == SkipEnd(file, old(Consumed()))
    {
      ghost var start := Consumed();
      ghost var p := Consumed();
      var c := GetChar();
      while c != NEWLINE && c != EOF
        invariant Valid() && p <= |file|
        invariant c == Stream(file, p) && Consumed() == After(file, p)
        invariant SkipEnd(file, start) == SkipEnd(file, p)
        decreases |file| - p
      {
        p := p + 1;
        c := GetChar();
      }
    }
  }

  /** A block read only partly is the file's last: its end is the end of the file. */
  lemma AtEnd(file: seq<byte>, b: nat, n: nat)
    requires b * BLOCK <= |file| && n == |Block(file, b)| < BLOCK
    ensures b * BLOCK + n == |file|
  {
  }

  // ---------------------------------------------------------------------
  // Skipping the header line.

  /**
   * The number of bytes read once the line starting after i bytes is
   * skipped, stopping at a newline or EOF: just past the newline, or at
   * the end of the file (a 0xff byte also reads as EOF).
   */
  function SkipEnd(file: seq<byte>, i: nat): (k: nat)
    requires i <= |file|
    ensures i <= k <= |file|
    decreases |file| - i
  {
    if i == |file| then i
    else if Stream(file, i) == NEWLINE || Stream(file, i) == EOF then i + 1
    else SkipEnd(file, i + 1)
  }

  /** A byte that ends the header skip: a newline, or one that reads as EOF. */
  predicate EndsLine(b: byte)
  {
    b == NEWLINE || b == 255
  }

  /**
   * SkipEnd stops just past the first newline (or 0xff byte) at or after
   * i, and at the end of the file when there is none.
   */
  lemma {:induction false} SkipEndFirst(file: seq<byte>, i: nat)
    requires i <= |file|
    ensures forall k :: i <= k < SkipEnd(file, i) - 1 ==> !EndsLine(file[k])
    ensures SkipEnd(file, i) < |file| ==> EndsLine(file[SkipEnd(file, i) - 1])
    decreases |file| - i
  {
    if i < |file| && !EndsLine(file[i]) {
      SkipEndFirst(file, i + 1);
    }
  }

  /**
   * `while(getchar_from_buffer() != '\n');` as written, run for at most
   * fuel calls: the number of bytes read once it stops, or None while it
   * is still looping. At EOF it keeps calling getchar_from_buffer.
   */
  function SkipAsWritten(file: seq<byte>, i: nat, fuel: nat): (r: Option<nat>)
    requires i <= |file|
    ensures r.Some? ==> i < r.value <= |file| && file[r.value - 1] == NEWLINE
    decreases fuel
  {
    if fuel == 0 then None
    else if Stream(file, i) == NEWLINE then Some(After(file, i))
    else SkipAsWritten(file, After(file, i), fuel - 1)
  }

  /**
   * On a file with no newline after i bytes (an empty file, or one whose
   * only line is not terminated) the header skip as written never stops:
   * however many calls it is given, it is still looping.
   */
  lemma {:induction false} HeaderSkipHangs(file: seq<byte>, i: nat, fuel: nat)
    requires i <= |file| && forall k :: i <= k < |file| ==> file[k] != NEWLINE
    ensures SkipAsWritten(file, i, fuel) == None
    decreases fuel
  {
    if fuel > 0 {
      HeaderSkipHangs(file, After(file, i), fuel - 1);
    }
  }

  /**
   * Where the file does have a newline and no 0xff byte comes before it,
   * the header skip as written, given enough calls, stops where SkipHeader
   * does.
   */
  lemma {:induction false} SkipAsWrittenAgrees(file: seq<byte>, i: nat, fuel: nat)
    requires i <= |file| && fuel > |file| - i
    requires exists k :: i <= k < |file| && file[k] == NEWLINE
    requires forall k :: i <= k < |file| ==> file[k] != 255
    ensures SkipAsWritten(file, i, fuel) == Some(SkipEnd(file, i))
    decreases |file| - i
  {
    if Stream(file, i) != NEWLINE {
      SkipAsWrittenAgrees(file, i + 1, fuel - 1);
    }
  }

  // ---------------------------------------------------------------------
  // get_values: the fields of a line.

  predicate IsStop(c: int)
  {
    c == COMMA || c == NEWLINE || c == EOF
  }

  /** The position of the first ',', '\n' or EOF at or after i: where the field starting at i ends. */
  function FieldEnd(file: seq<byte>, i: nat): (e: nat)
    requires i <= |file|
    ensures i <= e <= |file| && IsStop(Stream(file, e))
    decreases |file| - i
  {
    if IsStop(Stream(file, i)) then i else FieldEnd(file, i + 1)
  }

  /** No ',', '\n' or EOF comes before the end of the field: it is the first stop at or after i. */
  lemma {:induction false} FieldEndFirst(file: seq<byte>, i: nat, k: nat)
    requires i <= |file| && i <= k < FieldEnd(file, i)
    ensures !IsStop(Stream(file, k))
    decreases |file| - i
  {
    if k > i {
      FieldEndFirst(file, i + 1, k);
    }
  }

  /** The fields get_values read, and the number of bytes read after it. */
  datatype Row = Row(fields: seq<seq<byte>>, next: nat)

  /**
   * The fields of a line from column col on, the first one starting at i
   * (its first char already read and not EOF): each field runs to the
   * next ',', '\n' or EOF; after a ',' the next char is read, and the
   * line ends there if it is EOF or colNum fields have been read (that
   * char is then lost).
   */
  function Fields(file: seq<byte>, i: nat, col: nat, colNum: nat): (r: Row)
    requires i <= |file| && Stream(file, i) != EOF && col < colNum
    ensures 1 <= |r.fields| <= colNum - col && i < r.next <= |file|
    decreases |file| - i
  {
    var e := FieldEnd(file, i);
    var f := file[i..e];
    if Stream(file, e) != COMMA then Row([f], After(file, e))
    else if Stream(file, e + 1) == EOF || col + 1 == colNum then Row([f], After(file, e + 1))
    else
      var rest := Fields(file, e + 1, col + 1, colNum);
      Row([f] + rest.fields, rest.next)
  }

  /**
   * What get_values reads after pos bytes: nothing when the first char is
   * EOF (or there are no columns), else the fields of the line.
   */
  function ReadRow(file: seq<byte>, pos: nat, colNum: nat): (r: Row)
    requires pos <= |file|
    ensures |r.fields| <= colNum && pos <= r.next <= |file|
    ensures r.fields == [] <==> Stream(file, pos) == EOF || colNum == 0
    ensures r.fields != [] ==> pos < r.next
  {
    if Stream(file, pos) == EOF || colNum == 0 then Row([], After(file, pos)) else Fields(file, pos, 0, colNum)
  }

  /** A field as a line of the load file holds it: no ',', '\n' or byte that reads as EOF. */
  predicate Plain(f: seq<byte>)
  {
    forall k :: 0 <= k < |f| ==> f[k] != COMMA && f[k] != NEWLINE && f[k] != 255
  }

  /** fields joined by ',' (fields nonempty). */
  function Joined(fields: seq<seq<byte>>): (s: seq<byte>)
    requires |fields| > 0
  {
    if |fields| == 1 then fields[0] else fields[0] + [COMMA] + Joined(fields[1..])
  }

  /** A line of the load file: the fields joined by ',' and a newline. */
  function Line(fields: seq<seq<byte>>): (s: seq<byte>)
    requires |fields| > 0
  {
    Joined(fields) + [NEWLINE]
  }

  /** A field followed by a stop is read up to that stop. */
  lemma {:induction false} FieldEndAt(file: seq<byte>, i: nat, f: seq<byte>)
    requires i + |f| < |file| && file[i..i + |f|] == f && Plain(f) && IsStop(Stream(file, i + |f|))
    ensures FieldEnd(file, i) == i + |f|
    decreases |f|
  {
    if f != [] {
      assert file[i] == f[0] && Stream(file, i) == AsChar(f[0]);
      assert file[i + 1..i + 1 + |f[1..]|] == f[1..];
      FieldEndAt(file, i + 1, f[1..]);
    }
  }

  /** The fields from col on, starting at i, are read back as they were written. */
  lemma {:induction false} FieldsOfJoined(file: seq<byte>, i: nat, fields: seq<seq<byte>>, col: nat, colNum: nat)
    requires |fields| > 0 && col + |fields| <= colNum
    requires forall k :: 0 <= k < |fields| ==> Plain(fields[k])
    requires i + |Line(fields)| <= |file| && file[i..i + |Line(fields)|] == Line(fields)
    requires Stream(file, i) != EOF
    ensures Fields(file, i, col, colNum) == Row(fields, i + |Line(fields)|)
    decreases |fields|
  {
    if |fields| == 1 {
      LastFieldOf(file, i, fields, col, colNum);
    } else {
      var rest := fields[1..];
      var e := i + |fields[0]|;
      FirstFieldOf(file, i, fields);
      FieldsAtComma(file, i, col, colNum, e);
      FieldsOfJoined(file, e + 1, rest, col + 1, colNum);
      assert [fields[0]] + rest == fields;
    }
  }

  /** A line of one field is read as that field, up to past its newline. */
  lemma LastFieldOf(file: seq<byte>, i: nat, fields: seq<seq<byte>>, col: nat, colNum: nat)
    requires |fields| == 1 && col < colNum && Plain(fields[0])
    requires i + |Line(fields)| <= |file| && file[i..i + |Line(fields)|] == Line(fields)
    requires Stream(file, i) != EOF
    ensures Fields(file, i, col, colNum) == Row(fields, i + |Line(fields)|)
  {
    var f := fields[0];
    assert file[i..i + |f|] == Line(fields)[..|f|];
    assert Line(fields) == f + [NEWLINE];
    assert file[i + |f|] == NEWLINE;
    FieldEndAt(file, i, f);
  }

  /** A line of several fields: its first field ends at a comma, and the rest of the line follows it. */
  lemma FirstFieldOf(file: seq<byte>, i: nat, fields: seq<seq<byte>>)
    requires |fields| > 1 && forall k :: 0 <= k < |fields| ==> Plain(fields[k])
    requires i + |Line(fields)| <= |file| && file[i..i + |Line(fields)|] == Line(fields)
    ensures var e := i + |fields[0]|;
      && FieldEnd(file, i) == e && file[i..e] == fields[0] && Stream(file, e) == COMMA
      && e + 1 + |Line(fields[1..])| == i + |Line(fields)| && file[e + 1..e + 1 + |Line(fields[1..])|] == Line(fields[1..])
      && Stream(file, e + 1) != EOF
  {
    var f := fields[0];
    var rest := fields[1..];
    assert file[i..i + |f|] == Line(fields)[..|f|];
    assert Line(fields) == f + [COMMA] + Line(rest);
    assert file[i + |f|] == COMMA;
    FieldEndAt(file, i, f);
    var j := i + |f| + 1;
    assert Line(fields)[|f| + 1..] == Line(rest);
    assert file[j..j + |Line(rest)|] == file[i..i + |Line(fields)|][|f| + 1..];
    assert file[j] == Line(rest)[0];
    FirstOfLine(rest);
  }

  /** A field ending at a comma with more to read: that field, then the fields after the comma. */
  lemma FieldsAtComma(file: seq<byte>, i: nat, col: nat, colNum: nat, e: nat)
    requires i <= |file| && Stream(file, i) != EOF && col + 1 < colNum
    requires FieldEnd(file, i) == e && Stream(file, e) == COMMA && Stream(file, e + 1) != EOF
    ensures Fields(file, i, col, colNum) == Row([file[i..e]] + Fields(file, e + 1, col + 1, colNum).fields, Fields(file, e + 1, col + 1, colNum).next)
  {
  }

  /** A line of plain fields does not start with a byte that reads as EOF. */
  lemma FirstOfLine(fields: seq<seq<byte>>)
    requires |fields| > 0 && forall k :: 0 <= k < |fields| ==> Plain(fields[k])
    ensures Line(fields)[0] != 255
  {
    if fields[0] == [] {
      assert Line(fields)[0] == (if |fields| == 1 then NEWLINE else COMMA);
    } else {
      assert Line(fields)[0] == fields[0][0];
    }
  }

  /**
   * A line of n plain fields, 0 < n <= colNum, is read back by get_values
   * as those fields, with the bytes read ending at the end of the line;
   * get_values accepts it exactly when n == colNum.
   */
  lemma ReadsLine(fields: seq<seq<byte>>, rest: seq<byte>, colNum: nat)
    requires 0 < |fields| <= colNum && forall k :: 0 <= k < |fields| ==> Plain(fields[k])
    ensures ReadRow(Line(fields) + rest, 0, colNum) == Row(fields, |Line(fields)|)
  {
    var file := Line(fields) + rest;
    assert file[0..|Line(fields)|] == Line(fields);
    FirstOfLine(fields);
    FieldsOfJoined(file, 0, fields, 0, colNum);
  }
}

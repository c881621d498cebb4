// One field of a line of a LOAD file (executor_insert.h): read char by
// char through the double-buffered reader up to the next ',', '\n' or
// EOF, and set into a value of its column's type.
module FieldRead {
  import opened Wrappers
  import opened Errors
  import opened PyStr
  import opened Values
  import opened Catalog
  import opened ExecManager
  import opened LoadFile
  import opened FieldValues

  /**
   * The inner loop of get_values: from the char at i (already read) up to
   * the next ',', '\n' or EOF, each char into values_buf_.
   */
  method ReadField(rd: Reader, ch0: int, ghost i: nat) returns (f: seq<byte>, ch: int)
    requires rd.Valid() && i <= |rd.file| && ch0 == Stream(rd.file, i) && rd.Consumed() == After(rd.file, i)
    modifies rd`curIdx, rd`curPos, rd`remain, rd`filePos, rd`block, rd.buf0, rd.buf1
    ensures rd.Valid()
    ensures f == rd.file[i..FieldEnd(rd.file, i)] && ch == Stream(rd.file, FieldEnd(rd.file, i))
    ensures rd.Consumed() == After(rd.file, FieldEnd(rd.file, i))
  {
    ghost var file := rd.file;
    ghost var end := FieldEnd(file, i);
    ghost var e := i;
    f := [];
    ch := ch0;
    while ch != COMMA && ch != NEWLINE && ch != EOF
      invariant rd.Valid() && rd.file == file && i <= e <= end
      invariant f == file[i..e] && ch == Stream(file, e) && rd.Consumed() == After(file, e)
      invariant end == FieldEnd(file, e)
      decreases end - e
    {
      f, ch := StoreChar(rd, f, ch, i, e);
      e := e + 1;
    }
    StopIsEnd(file, e);
  }

  /** At a ',', '\n' or EOF the field ends where it starts. */
  lemma StopIsEnd(file: seq<byte>, e: nat)
    requires e <= |file| && IsStop(Stream(file, e))
    ensures FieldEnd(file, e) == e
  {
  }

  /** One round of the inner loop: the char at e, not a stop, is stored and the next one read. */
  method StoreChar(rd: Reader, f0: seq<byte>, ch0: int, ghost i: nat, ghost e: nat) returns (f: seq<byte>, ch: int)
    requires rd.Valid() && i <= e <= |rd.file| && f0 == rd.file[i..e] && !IsStop(ch0)
    requires ch0 == Stream(rd.file, e) && rd.Consumed() == After(rd.file, e)
    modifies rd`curIdx, rd`curPos, rd`remain, rd`filePos, rd`block, rd.buf0, rd.buf1
    ensures rd.Valid() && e < |rd.file| && FieldEnd(rd.file, e + 1) == FieldEnd(rd.file, e)
    ensures f == rd.file[i..e + 1] && ch == Stream(rd.file, e + 1) && rd.Consumed() == After(rd.file, e + 1)
  {
    CharRead(rd.file, i, e, ch0);
    f := f0 + [ByteOf(ch0)];
    ch := rd.GetChar();
  }

  /** A char of the field that is not its stop: the byte at e, and the field goes on after it. */
  lemma CharRead(file: seq<byte>, i: nat, e: nat, ch: int)
    requires i <= e <= |file| && ch == Stream(file, e) && !IsStop(ch)
    ensures e < |file| && -128 <= ch < 128 && ByteOf(ch) == file[e]
    ensures file[i..e + 1] == file[i..e] + [ByteOf(ch)] && FieldEnd(file, e + 1) == FieldEnd(file, e)
  {
    assert file[i..e + 1] == file[i..e] + [file[e]];
  }

  /**
   * The rest of one turn of get_values's loop, once a field has been read
   * up to the stop at e: the field set into a value of its column's type;
   * then, when the stop is a ',', the char after it.
   */
  method LoadThenSkip(rd: Reader, f: seq<byte>, ch0: int, ghost e: nat, c: ColMeta)
    returns (v: Result<Literal, DbError>, ch: int, comma: bool)
    requires rd.Valid() && e <= |rd.file| && ch0 == Stream(rd.file, e) && rd.Consumed() == After(rd.file, e)
    requires FieldFits(c, f)
    modifies rd`curIdx, rd`curPos, rd`remain, rd`filePos, rd`block, rd.buf0, rd.buf1
    ensures rd.Valid()
    ensures v == FieldValue(c, f) && (comma <==> ch0 == COMMA)
    ensures !(v.Ok? && comma) ==> rd.Consumed() == After(rd.file, e)
    ensures v.Ok? && comma ==> e < |rd.file| && ch == Stream(rd.file, e + 1) && rd.Consumed() == After(rd.file, e + 1)
  {
    v := LoadField(c, f);
    comma := ch0 == COMMA;
    ch := ch0;
    if v.Ok? && comma {
      ch := rd.GetChar();
    }
  }
}

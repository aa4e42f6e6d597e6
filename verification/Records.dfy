/** The length-prefixed records of socket_basic/server.cpp, mirrored in socket_basic/client.cpp: write_chars and
    read_chars, write_structs and read_structs, between the buffer handed to write() and the one filled by read(). */
module Records {
  import opened Bytes

  const INT_SIZE := 4

  predicate Sized(rs: seq<seq<byte>>) {
    forall r :: r in rs ==> |r| < 0x8000_0000
  }

  /** A record: its length as a C int, then its bytes. */
  function Record(r: seq<byte>): (b: seq<byte>)
    requires |r| < 0x8000_0000
    ensures |b| == INT_SIZE + |r|
  {
    I32Le(|r|) + r
  }

  function EncodedLength(rs: seq<seq<byte>>): (n: nat) {
    if rs == [] then 0 else INT_SIZE + |rs[0]| + EncodedLength(rs[1..])
  }

  function Encode(rs: seq<seq<byte>>): (b: seq<byte>)
    requires Sized(rs)
    ensures |b| == EncodedLength(rs)
  {
    if rs == [] then [] else Record(rs[0]) + Encode(rs[1..])
  }

  lemma {:induction false} EncodeConcat(rs: seq<seq<byte>>, qs: seq<seq<byte>>)
    requires Sized(rs) && Sized(qs)
    ensures Sized(rs + qs) && Encode(rs + qs) == Encode(rs) + Encode(qs)
  {
    hide Record;
    if rs == [] {
      assert rs + qs == qs;
    } else {
      EncodeConcat(rs[1..], qs);
      assert (rs + qs)[1..] == rs[1..] + qs && (rs + qs)[0] == rs[0];
      assert Encode(rs) == Record(rs[0]) + Encode(rs[1..]);
    }
  }

  lemma EncodeSnoc(rs: seq<seq<byte>>, r: seq<byte>)
    requires Sized(rs + [r])
    ensures Sized(rs) && Encode(rs + [r]) == Encode(rs) + Record(r)
  {
    hide Record;
    assert forall x :: x in rs ==> x in rs + [r];
    assert r in rs + [r];
    EncodeConcat(rs, [r]);
    assert Encode([r]) == Record(r) + Encode([]);
  }

  /** The body of both writing loops: memcpy of the length, then of the data. */
  method PutRecord(ptr: array<byte>, at: nat, data: seq<byte>)
    requires |data| < 0x8000_0000 && at + INT_SIZE + |data| <= ptr.Length
    modifies ptr
    ensures ptr[..at + INT_SIZE + |data|] == old(ptr[..at]) + Record(data)
    ensures ptr[at + INT_SIZE + |data|..] == old(ptr[at + INT_SIZE + |data|..])
  {
    hide I32Le;
    CopyIn(ptr, at, I32Le(|data|));
    CopyIn(ptr, at + INT_SIZE, data);
  }

  /** The same behind a pointer from which on nothing has changed yet. */
  method PutNext(ptr: array<byte>, at: nat, data: seq<byte>, ghost was: seq<byte>)
    requires |data| < 0x8000_0000 && at + INT_SIZE + |data| <= ptr.Length
    requires |was| == ptr.Length && ptr[at..] == was[at..]
    modifies ptr
    ensures ptr[..at + INT_SIZE + |data|] == old(ptr[..at]) + Record(data)
    ensures ptr[at + INT_SIZE + |data|..] == was[at + INT_SIZE + |data|..]
  {
    hide Record;
    var next := INT_SIZE + |data|;
    assert ptr[at + next..] == ptr[at..][next..] == was[at..][next..] == was[at + next..];
    PutRecord(ptr, at, data);
  }

  /** The strings in the rows of a char**. */
  function Strings(rows: seq<seq<byte>>): (rs: seq<seq<byte>>)
    ensures |rs| == |rows| && forall i :: 0 <= i < |rows| ==> rs[i] == CStr(rows[i])
  {
    seq(|rows|, i requires 0 <= i < |rows| => CStr(rows[i]))
  }

  lemma {:induction false} PrefixLength(rs: seq<seq<byte>>, k: nat)
    requires k <= |rs|
    ensures EncodedLength(rs[..k]) + EncodedLength(rs[k..]) == EncodedLength(rs)
  {
    if k > 0 {
      PrefixLength(rs[1..], k - 1);
      assert rs[..k][1..] == rs[1..][..k - 1] && rs[1..][k - 1..] == rs[k..];
    } else {
      assert rs[0..] == rs;
    }
  }

  lemma EncodeNext(items: seq<seq<byte>>, i: nat)
    requires Sized(items) && i < |items|
    ensures Sized(items[..i]) && Sized(items[..i + 1]) && |items[i]| < 0x8000_0000
    ensures Encode(items[..i + 1]) == Encode(items[..i]) + Record(items[i])
    ensures |Encode(items[..i + 1])| <= |Encode(items)|
  {
    hide Record, Encode, EncodedLength;
    var front := items[..i];
    assert forall x :: x in front ==> x in items;
    assert items[i] in items;
    assert items[..i + 1] == front + [items[i]];
    EncodeSnoc(front, items[i]);
    PrefixLength(items, i + 1);
  }

  lemma EncodeNone()
    ensures Sized([]) && Encode([]) == []
  {
  }

  /** The common loop: record after record behind a moving pointer. */
  method PackAll(items: seq<seq<byte>>, ptr: array<byte>) returns (totalLength: nat)
    requires Sized(items) && EncodedLength(items) <= ptr.Length
    modifies ptr
    ensures totalLength == EncodedLength(items)
    ensures ptr[..totalLength] == Encode(items) && ptr[totalLength..] == old(ptr[totalLength..])
  {
    hide *;
    EncodeNone();
    ghost var was := ptr[..];
    totalLength := 0;
    var i := 0;
    while i < |items|
      invariant 0 <= i <= |items| && Sized(items[..i])
      invariant totalLength == |Encode(items[..i])| <= ptr.Length
      invariant ptr[..totalLength] == Encode(items[..i]) && ptr[totalLength..] == was[totalLength..]
    {
      EncodeNext(items, i);
      PutNext(ptr, totalLength, items[i], was);
      totalLength := totalLength + INT_SIZE + |items[i]|;
      i := i + 1;
    }
    assert items[..i] == items;
  }

  /** The loop of write_chars. */
  method WriteChars(rows: seq<seq<byte>>, ptr: array<byte>) returns (totalLength: nat)
    requires Sized(Strings(rows)) && EncodedLength(Strings(rows)) <= ptr.Length
    modifies ptr
    ensures totalLength == EncodedLength(Strings(rows))
    ensures ptr[..totalLength] == Encode(Strings(rows)) && ptr[totalLength..] == old(ptr[totalLength..])
  {
    totalLength := PackAll(Strings(rows), ptr);
  }

  predicate RecordAt(mem: seq<byte>, at: nat, r: seq<byte>) {
    && at + INT_SIZE + |r| <= |mem| && I32At(mem, at) == |r|
    && mem[at + INT_SIZE..at + INT_SIZE + |r|] == r
  }

  /** What a reader finds at offset at of mem when the records rs lie there. */
  predicate RecordsAt(mem: seq<byte>, at: nat, rs: seq<seq<byte>>)
    decreases |rs|
  {
    rs == [] ||
    (RecordAt(mem, at, rs[0]) && RecordsAt(mem, at + INT_SIZE + |rs[0]|, rs[1..]))
  }

  lemma RecordIsRecordAt(pre: seq<byte>, r: seq<byte>, post: seq<byte>)
    requires |r| < 0x8000_0000
    ensures RecordAt(pre + Record(r) + post, |pre|, r)
  {
    hide U32At, U32Le;
    var mem := pre + Record(r) + post;
    assert mem[|pre|..|pre| + INT_SIZE] == U32Le(|r|);
    U32Stored(mem, |pre|, |r|);
  }

  lemma SizedTail(rs: seq<seq<byte>>)
    requires Sized(rs) && rs != []
    ensures |rs[0]| < 0x8000_0000 && Sized(rs[1..])
  {
  }

  lemma {:induction false} EncodeIsRecords(pre: seq<byte>, rs: seq<seq<byte>>, post: seq<byte>)
    requires Sized(rs)
    ensures RecordsAt(pre + Encode(rs) + post, |pre|, rs)
    decreases |rs|
  {
    hide Record, RecordAt, EncodedLength, Sized;
    if rs != [] {
      SizedTail(rs);
      var f, rest := Record(rs[0]), Encode(rs[1..]);
      var mem := pre + Encode(rs) + post;
      assert mem == pre + f + (rest + post) && mem == (pre + f) + rest + post;
      RecordIsRecordAt(pre, rs[0], rest + post);
      EncodeIsRecords(pre + f, rs[1..], post);
    }
  }

  // ----- read_chars

  /** The state read_chars ends in, or Overrun when a length is negative, exceeds its row, or leaves the buffer. */
  datatype Chars = Chars(data: seq<seq<byte>>, index: nat, cursor: nat, remain: int) | Overrun

  /** The do-while loop of read_chars from a given row on. */
  function Unpack(mem: seq<byte>, cursor: nat, remain: int, index: nat, data: seq<seq<byte>>): (c: Chars)
    requires cursor <= |mem| && index < |data|
    ensures c.Chars? ==> c.cursor + c.remain == cursor + remain && index < c.index <= |data|
    decreases |data| - index
  {
    if cursor + INT_SIZE > |mem| then Overrun
    else
      var n := I32At(mem, cursor);
      var from := cursor + INT_SIZE;
      if n < 0 || n > |data[index]| || from + n > |mem| then Overrun
      else
        var filled := data[index := mem[from..from + n] + data[index][n..]];
        if index + 1 < |data| && remain - INT_SIZE - n > 0
        then Unpack(mem, from + n, remain - INT_SIZE - n, index + 1, filled)
        else Chars(filled, index + 1, from + n, remain - INT_SIZE - n)
  }

  lemma UnpackOnce(mem: seq<byte>, cursor: nat, remain: int, index: nat, data: seq<seq<byte>>, n: int)
    requires cursor <= |mem| && index < |data|
    requires cursor + INT_SIZE <= |mem| ==> n == I32At(mem, cursor)
    ensures var from, left := cursor + INT_SIZE, remain - INT_SIZE - n;
            if from > |mem| || n < 0 || n > |data[index]| || from + n > |mem|
            then Unpack(mem, cursor, remain, index, data) == Overrun
            else
              var filled := data[index := mem[from..from + n] + data[index][n..]];
              Unpack(mem, cursor, remain, index, data) ==
              if index + 1 < |data| && left > 0 then Unpack(mem, from + n, left, index + 1, filled)
              else Chars(filled, index + 1, from + n, left)
  {
    hide I32At;
  }

  method UnpackLoop(buffer: array<byte>, count: int, data: array<seq<byte>>) returns (r: Chars)
    requires data.Length > 0
    modifies data
    ensures r == Unpack(buffer[..], 0, count, 0, old(data[..]))
    ensures r.Chars? ==> data[..] == r.data
  {
    hide I32At, Unpack;
    var remainLength, tmpPtr: nat, index: nat := count, 0, 0;
    ghost var mem, whole := buffer[..], Unpack(buffer[..], 0, count, 0, data[..]);
    while true
      invariant tmpPtr <= buffer.Length && index < data.Length
      invariant whole == Unpack(mem, tmpPtr, remainLength, index, data[..])
      decreases data.Length - index
    {
      if tmpPtr + INT_SIZE > buffer.Length {
        UnpackOnce(mem, tmpPtr, remainLength, index, data[..], 0);
        return Overrun;
      }
      var dataLength := I32At(buffer[..], tmpPtr);
      ghost var before := data[..];
      UnpackOnce(mem, tmpPtr, remainLength, index, before, dataLength);
      tmpPtr, remainLength := tmpPtr + INT_SIZE, remainLength - INT_SIZE;
      if dataLength < 0 || dataLength > |data[index]| || tmpPtr + dataLength > buffer.Length {
        return Overrun;
      }
      data[index] := buffer[tmpPtr..tmpPtr + dataLength] + data[index][dataLength..];
      assert data[..] == before[index := mem[tmpPtr..tmpPtr + dataLength] + before[index][dataLength..]];
      tmpPtr, remainLength := tmpPtr + dataLength, remainLength - dataLength;
      index := index + 1;
      if index >= data.Length || remainLength <= 0 {
        return Chars(data[..], index, tmpPtr, remainLength);
      }
    }
  }

  method ReadChars(buffer: array<byte>, count: int, data: array<seq<byte>>) returns (r: Chars)
    requires data.Length > 0
    modifies data
    ensures count <= 0 ==> r == Chars(old(data[..]), 0, 0, count) && data[..] == old(data[..])
    ensures count > 0 ==> r == Unpack(buffer[..], 0, count, 0, old(data[..]))
    ensures r.Chars? ==> data[..] == r.data
  {
    if count <= 0 {
      return Chars(data[..], 0, 0, count);
    }
    r := UnpackLoop(buffer, count, data);
  }

  /** A row of col bytes after a record has been copied over its zeros. */
  function Row(r: seq<byte>, col: nat): (b: seq<byte>)
    requires |r| <= col
  {
    r + Zeros(col - |r|)
  }

  /** Rows index to index + k of data have been replaced by the first k of the records rs that begin at offset at;
      the cursor stands behind them, and remain counts the other records. */
  ghost predicate Loaded(c: Chars, data: seq<seq<byte>>, index: nat, k: nat, rs: seq<seq<byte>>, col: nat, at: nat)
    requires k <= |rs| && index + k <= |data|
    requires forall i :: 0 <= i < |rs| ==> |rs[i]| <= col
  {
    && c.Chars? && c.index == index + k && |c.data| == |data|
    && c.cursor == at + EncodedLength(rs[..k]) && c.remain == EncodedLength(rs[k..])
    && (forall i :: index <= i < index + k ==> c.data[i] == Row(rs[i - index], col))
    && (forall i :: 0 <= i < index || index + k <= i < |data| ==> c.data[i] == data[i])
  }

  lemma LoadedCons(c: Chars, data: seq<seq<byte>>, index: nat, k: nat, rs: seq<seq<byte>>, col: nat, at: nat)
    requires 0 < k <= |rs| && index + k <= |data|
    requires forall i :: 0 <= i < |rs| ==> |rs[i]| <= col
    requires Loaded(c, data[index := Row(rs[0], col)], index + 1, k - 1, rs[1..], col, at + INT_SIZE + |rs[0]|)
    ensures Loaded(c, data, index, k, rs, col, at)
  {
    hide Row;
    var rest := rs[1..];
    assert rs[..k][1..] == rest[..k - 1] && rest[k - 1..] == rs[k..];
    forall i | index <= i < index + k
      ensures c.data[i] == Row(rs[i - index], col)
    {
      if i > index {
        assert rs[i - index] == rest[i - (index + 1)];
      }
    }
  }

  lemma LoadedNone(data: seq<seq<byte>>, index: nat, rs: seq<seq<byte>>, col: nat, at: nat)
    requires index <= |data| && forall i :: 0 <= i < |rs| ==> |rs[i]| <= col
    ensures Loaded(Chars(data, index, at, EncodedLength(rs)), data, index, 0, rs, col, at)
  {
    hide Row;
    assert rs[..0] == [] && rs[0..] == rs;
  }

  /** One pass of the loop over a record that fits its row. */
  lemma FirstRow(mem: seq<byte>, at: nat, r: seq<byte>, data: seq<seq<byte>>, index: nat, col: nat, after: nat)
    requires RecordAt(mem, at, r) && |r| <= col && index < |data| && data[index] == Zeros(col)
    ensures var next, filled := at + INT_SIZE + |r|, data[index := Row(r, col)];
            Unpack(mem, at, INT_SIZE + |r| + after, index, data) ==
            if index + 1 < |data| && after > 0 then Unpack(mem, next, after, index + 1, filled)
            else Chars(filled, index + 1, next, after)
  {
    hide I32At;
    assert mem[at + INT_SIZE..at + INT_SIZE + |r|] + data[index][|r|..] == Row(r, col);
  }

  /** What is behind the first record. */
  lemma BehindFirst(mem: seq<byte>, at: nat, rs: seq<seq<byte>>)
    requires rs != [] && RecordsAt(mem, at, rs)
    ensures var rest, next := rs[1..], at + INT_SIZE + |rs[0]|;
            && RecordAt(mem, at, rs[0]) && RecordsAt(mem, next, rest) && next <= |mem|
            && EncodedLength(rs) == INT_SIZE + |rs[0]| + EncodedLength(rest)
            && (EncodedLength(rest) == 0 <==> rest == [])
  {
    hide I32At;
  }

  lemma MinNext(a: nat, b: nat)
    requires a > 0 && b > 0
    ensures Min(a, b) > 0 && Min(a, b) <= a && Min(a, b) <= b && Min(a - 1, b - 1) == Min(a, b) - 1
    ensures Min(a, b) == 1 <==> a == 1 || b == 1
  {
  }

  /** Round trip: whatever follows them in the buffer, the first records come back one to a row, as many as there
      are rows; the cursor stands behind them and remain counts the rest. */
  lemma {:induction false} CharsRoundTrip(mem: seq<byte>, at: nat, rs: seq<seq<byte>>, data: seq<seq<byte>>,
                                          index: nat, col: nat)
    requires rs != [] && RecordsAt(mem, at, rs) && at <= |mem|
    requires forall i :: 0 <= i < |rs| ==> |rs[i]| <= col
    requires index < |data| && forall i :: index <= i < |data| ==> data[i] == Zeros(col)
    ensures Loaded(Unpack(mem, at, EncodedLength(rs), index, data), data, index, Min(|data| - index, |rs|), rs, col, at)
    decreases |rs|
  {
    hide I32At, Unpack, Row, Loaded, Zeros, RecordAt, RecordsAt, EncodedLength, Min;
    var r, rest := rs[0], rs[1..];
    var k, filled, next := Min(|data| - index, |rs|), data[index := Row(r, col)], at + INT_SIZE + |r|;
    var c := Unpack(mem, at, EncodedLength(rs), index, data);
    BehindFirst(mem, at, rs);
    MinNext(|data| - index, |rs|);
    FirstRow(mem, at, r, data, index, col, EncodedLength(rest));
    if index + 1 < |data| && rest != [] {
      CharsRoundTrip(mem, next, rest, filled, index + 1, col);
    } else {
      LoadedNone(filled, index + 1, rest, col, next);
    }
    LoadedCons(c, data, index, k, rs, col, at);
  }

  /** What read_chars prints for a row is the record, provided it has no NUL. */
  lemma RowString(r: seq<byte>, col: nat)
    requires NulFree(r) && |r| < col
    ensures CStr(Row(r, col)) == r
  {
    CStrStored(Row(r, col), 0, r);
  }

  /** The rows that read_chars allocates and zeroes. */
  function ZeroRows(count: nat, col: nat): (data: seq<seq<byte>>)
    ensures |data| == count && forall i :: 0 <= i < count ==> data[i] == Zeros(col)
  {
    seq(count, i => Zeros(col))
  }

  /** write_chars to read_chars: every record short enough for a row is printed as it was written, row by row, and
      the loop accounts for the bytes of exactly those records. */
  lemma CharsDelivered(rs: seq<seq<byte>>, count: nat, col: nat, after: seq<byte>)
    requires rs != [] && count > 0 && col < 0x8000_0000
    requires forall i :: 0 <= i < |rs| ==> NulFree(rs[i]) && |rs[i]| < col
    ensures Sized(rs)
    ensures var c := Unpack(Encode(rs) + after, 0, EncodedLength(rs), 0, ZeroRows(count, col));
            var k := Min(count, |rs|);
            && c.Chars? && c.index == k && |c.data| == count
            && c.cursor == EncodedLength(rs[..k]) && c.remain == EncodedLength(rs[k..])
            && (forall i :: 0 <= i < k ==> CStr(c.data[i]) == rs[i])
            && (forall i :: k <= i < count ==> c.data[i] == Zeros(col))
  {
    hide Record, RecordsAt, Unpack, Encode, Row;
    EncodeIsRecords([], rs, after);
    assert [] + Encode(rs) + after == Encode(rs) + after;
    CharsRoundTrip(Encode(rs) + after, 0, rs, ZeroRows(count, col), 0, col);
    forall i | 0 <= i < |rs|
      ensures CStr(Row(rs[i], col)) == rs[i]
    {
      RowString(rs[i], col);
    }
  }

  // ----- a read that ends inside a record

  /** How many of the records rs the first n bytes of their encoding hold whole. */
  function WholeRecords(rs: seq<seq<byte>>, n: nat): (k: nat)
    ensures k <= |rs|
  {
    if rs == [] || n < INT_SIZE + |rs[0]| then 0 else 1 + WholeRecords(rs[1..], n - INT_SIZE - |rs[0]|)
  }

  lemma {:induction false} WholeRecordsFit(rs: seq<seq<byte>>, n: nat)
    ensures var k := WholeRecords(rs, n);
            EncodedLength(rs[..k]) <= n && (k < |rs| ==> n < EncodedLength(rs[..k]) + INT_SIZE + |rs[k]|)
  {
    var k := WholeRecords(rs, n);
    if k > 0 {
      WholeRecordsFit(rs[1..], n - INT_SIZE - |rs[0]|);
      assert rs[..k] == [rs[0]] + rs[1..][..k - 1];
    }
  }

  /** The first t bytes of the record r lie at offset at of mem, and zeros where the others would be. */
  predicate CutAt(mem: seq<byte>, at: nat, r: seq<byte>, t: nat)
    requires |r| < 0x8000_0000
  {
    && 0 < t < INT_SIZE + |r| && at + INT_SIZE + |r| <= |mem|
    && mem[at..at + t] == Record(r)[..t]
    && forall i :: at + t <= i < at + INT_SIZE + |r| ==> mem[i] == 0
  }

  /** The part of the record's data that has arrived. */
  function Arrived(r: seq<byte>, t: nat): (b: seq<byte>)
    ensures |b| <= |r|
  {
    if t <= INT_SIZE then [] else r[..Min(|r|, t - INT_SIZE)]
  }

  /** A length word of which only the low bytes have arrived is no larger than the length. */
  lemma CutWord(mem: seq<byte>, at: nat, r: seq<byte>, t: nat)
    requires |r| < 0x8000_0000 && CutAt(mem, at, r, t)
    ensures 0 <= I32At(mem, at) <= |r| && (t >= INT_SIZE ==> I32At(mem, at) == |r|)
    ensures |r| < 256 ==> I32At(mem, at) == |r|
  {
    var w := U32Le(|r|);
    U32RoundTrip(|r|);
    assert Record(r)[..INT_SIZE] == w;
    assert forall i :: at <= i < at + INT_SIZE ==> mem[i] == if i < at + t then w[i - at] else 0 by {
      assert forall i :: at <= i < at + t ==> mem[i] == mem[at..at + t][i - at];
    }
  }

  /** The n data bytes behind it. */
  lemma CutData(mem: seq<byte>, at: nat, r: seq<byte>, t: nat, n: nat)
    requires |r| < 0x8000_0000 && CutAt(mem, at, r, t) && |Arrived(r, t)| <= n <= |r|
    ensures var b := Arrived(r, t);
            mem[at + INT_SIZE..at + INT_SIZE + n] == b + Zeros(n - |b|)
  {
    hide I32Le;
    var from := at + INT_SIZE;
    forall i | from <= i < from + n
      ensures mem[i] == if i < at + t then r[i - from] else 0
    {
      if i < at + t {
        assert mem[i] == mem[at..at + t][i - at] == Record(r)[i - at];
      }
    }
  }

  /** The pass over a cut record: its row gets what has arrived, and remain goes negative, which ends the loop. */
  lemma CutRow(mem: seq<byte>, at: nat, r: seq<byte>, t: nat, data: seq<seq<byte>>, index: nat, col: nat)
    requires |r| < col <= 0x8000_0000 && CutAt(mem, at, r, t)
    requires index < |data| && data[index] == Zeros(col)
    ensures var c := Unpack(mem, at, t, index, data);
            && c.Chars? && c.index == index + 1 && c.remain < 0
            && c.data == data[index := Row(Arrived(r, t), col)]
  {
    hide I32At;
    CutWord(mem, at, r, t);
    var n, b := I32At(mem, at), Arrived(r, t);
    CutData(mem, at, r, t, n);
    UnpackOnce(mem, at, t, index, data, n);
    hide CutAt, Unpack;
    assert mem[at + INT_SIZE..at + INT_SIZE + n] + Zeros(col)[n..] == b + Zeros(n - |b|) + Zeros(col)[n..]
        == Row(b, col);
  }

  /** Rows index on have been filled by the records rs, as far as there are rows, and one more by the arrived part
      of the record r. */
  ghost predicate CutLoaded(c: Chars, data: seq<seq<byte>>, index: nat, rs: seq<seq<byte>>, r: seq<byte>, t: nat,
                            col: nat)
    requires index <= |data| && |r| < col && forall i :: 0 <= i < |rs| ==> |rs[i]| < col
  {
    var k := Min(|data| - index, |rs|);
    && c.Chars? && |c.data| == |data|
    && (forall i :: index <= i < index + k ==> c.data[i] == Row(rs[i - index], col))
    && (k == |data| - index ==> c.index == |data|)
    && (k < |data| - index ==>
          c.index == index + k + 1 && c.remain < 0 && c.data[index + k] == Row(Arrived(r, t), col))
    && (forall i :: 0 <= i < index || index + k < i < |data| ==> c.data[i] == data[i])
  }

  lemma CutLoadedCons(c: Chars, data: seq<seq<byte>>, index: nat, rs: seq<seq<byte>>, r: seq<byte>, t: nat, col: nat)
    requires index < |data| && rs != [] && |r| < col && forall i :: 0 <= i < |rs| ==> |rs[i]| < col
    requires var filled := data[index := Row(rs[0], col)];
             if index + 1 < |data| then CutLoaded(c, filled, index + 1, rs[1..], r, t, col)
             else c.Chars? && c.data == filled && c.index == index + 1
    ensures CutLoaded(c, data, index, rs, r, t, col)
  {
    hide Row, Arrived;
    forall i | index <= i < index + Min(|data| - index, |rs|)
      ensures c.data[i] == Row(rs[i - index], col)
    {
      if i > index {
        assert rs[i - index] == rs[1..][i - (index + 1)];
      }
    }
  }

  /** What is behind the first of the whole records. */
  lemma CutBehindFirst(mem: seq<byte>, at: nat, rs: seq<seq<byte>>, r: seq<byte>, t: nat)
    requires rs != [] && RecordsAt(mem, at, rs)
    requires |r| < 0x8000_0000 && CutAt(mem, at + EncodedLength(rs), r, t)
    ensures var rest, next := rs[1..], at + INT_SIZE + |rs[0]|;
            && RecordAt(mem, at, rs[0]) && RecordsAt(mem, next, rest) && next <= |mem| && t > 0
            && EncodedLength(rs) == INT_SIZE + |rs[0]| + EncodedLength(rest)
            && CutAt(mem, next + EncodedLength(rest), r, t)
  {
    BehindFirst(mem, at, rs);
    hide I32At, Record, RecordAt, RecordsAt, EncodedLength;
  }

  lemma NoRecords(rs: seq<seq<byte>>)
    requires rs == []
    ensures EncodedLength(rs) == 0
  {
  }

  /** The rows after a read that ends t bytes into the record r, behind the whole records rs. */
  lemma {:induction false} CharsCut(mem: seq<byte>, at: nat, rs: seq<seq<byte>>, r: seq<byte>, t: nat,
                                    data: seq<seq<byte>>, index: nat, col: nat)
    requires RecordsAt(mem, at, rs) && |r| < col <= 0x8000_0000 && CutAt(mem, at + EncodedLength(rs), r, t)
    requires forall i :: 0 <= i < |rs| ==> |rs[i]| < col
    requires index < |data| && forall i :: index <= i < |data| ==> data[i] == Zeros(col)
    ensures CutLoaded(Unpack(mem, at, EncodedLength(rs) + t, index, data), data, index, rs, r, t, col)
    decreases |rs|
  {
    hide I32At, Unpack, Row, Zeros, RecordAt, RecordsAt, EncodedLength, CutAt, Arrived;
    if rs == [] {
      NoRecords(rs);
      CutRow(mem, at, r, t, data, index, col);
    } else {
      hide CutLoaded;
      CutBehindFirst(mem, at, rs, r, t);
      var q, rest := rs[0], rs[1..];
      var filled, next := data[index := Row(q, col)], at + INT_SIZE + |q|;
      FirstRow(mem, at, q, data, index, col, EncodedLength(rest) + t);
      if index + 1 < |data| {
        CharsCut(mem, next, rest, r, t, filled, index + 1, col);
      }
      CutLoadedCons(Unpack(mem, at, EncodedLength(rs) + t, index, data), data, index, rs, r, t, col);
    }
  }

  /** A buffer into which read() has put the first n bytes of an encoding, in front of z zeros. */
  function ShortRead(rs: seq<seq<byte>>, n: nat, z: nat): (mem: seq<byte>)
    requires Sized(rs) && n <= EncodedLength(rs)
    ensures |mem| == n + z
  {
    Encode(rs)[..n] + Zeros(z)
  }

  lemma EncodeSplit(rs: seq<seq<byte>>, k: nat)
    requires Sized(rs) && k <= |rs|
    ensures Sized(rs[..k]) && Sized(rs[k..]) && Encode(rs) == Encode(rs[..k]) + Encode(rs[k..])
    ensures k < |rs| ==> |rs[k]| < 0x8000_0000 && Record(rs[k]) <= Encode(rs[k..])
  {
    hide Record;
    assert rs == rs[..k] + rs[k..];
    assert forall r :: r in rs[..k] ==> r in rs;
    assert forall r :: r in rs[k..] ==> r in rs;
    EncodeConcat(rs[..k], rs[k..]);
    if k < |rs| {
      assert rs[k] in rs && Encode(rs[k..]) == Record(rs[k]) + Encode(rs[k..][1..]);
    }
  }

  lemma CutBehind(front: seq<byte>, r: seq<byte>, t: nat, z: nat)
    requires |r| < 0x8000_0000 && 0 < t < INT_SIZE + |r| <= z
    ensures CutAt(front + Record(r)[..t] + Zeros(z), |front|, r, t)
  {
    hide Record, Zeros;
  }

  lemma ShortReadIsCut(rs: seq<seq<byte>>, n: nat, z: nat)
    requires Sized(rs) && n <= EncodedLength(rs)
    requires forall i :: 0 <= i < |rs| ==> INT_SIZE + |rs[i]| <= z
    ensures var k := WholeRecords(rs, n);
            var whole := EncodedLength(rs[..k]);
            && Sized(rs[..k]) && whole <= n && (k == |rs| ==> whole == n)
            && RecordsAt(ShortRead(rs, n, z), 0, rs[..k])
            && (whole < n ==>
                  k < |rs| && |rs[k]| < 0x8000_0000 && CutAt(ShortRead(rs, n, z), whole, rs[k], n - whole))
  {
    hide Record, RecordsAt, WholeRecords, EncodedLength, Encode, Sized, CutAt, Zeros;
    var k, mem := WholeRecords(rs, n), ShortRead(rs, n, z);
    var whole := EncodedLength(rs[..k]);
    WholeRecordsFit(rs, n);
    EncodeSplit(rs, k);
    var front, tail := Encode(rs[..k]), Encode(rs[k..])[..n - whole];
    assert Encode(rs)[..n] == front + tail;
    assert [] + front + (tail + Zeros(z)) == mem;
    EncodeIsRecords([], rs[..k], tail + Zeros(z));
    if k == |rs| {
      assert rs[..k] == rs;
    } else if whole < n {
      assert tail == Record(rs[k])[..n - whole];
      CutBehind(front, rs[k], n - whole, z);
    }
  }

  /** The rows after read_chars, when k of the records rs arrived whole and t bytes of the next: the whole ones read
      as they were written; if there is a row left for one cut short, it reads as that part of its data that
      arrived, nothing when the cut lies in its length, and remain_length has gone negative. */
  ghost predicate Shown(c: Chars, rs: seq<seq<byte>>, k: nat, t: nat, count: nat)
    requires k <= |rs|
  {
    && c.Chars? && |c.data| == count
    && (forall i :: 0 <= i < Min(count, k) ==> CStr(c.data[i]) == rs[i])
    && (if t > 0 && k < count then
          k < |rs| && c.index == k + 1 && c.remain < 0 && CStr(c.data[k]) == Arrived(rs[k], t)
        else c.index == Min(count, k))
  }

  predicate Texts(rs: seq<seq<byte>>, col: nat) {
    forall i :: 0 <= i < |rs| ==> NulFree(rs[i]) && |rs[i]| < col
  }

  lemma RowStrings(rs: seq<seq<byte>>, col: nat)
    requires Texts(rs, col)
    ensures forall i :: 0 <= i < |rs| ==> CStr(Row(rs[i], col)) == rs[i]
  {
    forall i | 0 <= i < |rs|
      ensures CStr(Row(rs[i], col)) == rs[i]
    {
      RowString(rs[i], col);
    }
  }

  lemma ArrivedString(r: seq<byte>, t: nat, col: nat)
    requires NulFree(r) && |r| < col
    ensures CStr(Row(Arrived(r, t), col)) == Arrived(r, t)
  {
    RowString(Arrived(r, t), col);
  }

  lemma CutIsShown(c: Chars, rs: seq<seq<byte>>, k: nat, t: nat, count: nat, col: nat)
    requires k < |rs| && Texts(rs, col) && t > 0
    requires CutLoaded(c, ZeroRows(count, col), 0, rs[..k], rs[k], t, col)
    ensures Shown(c, rs, k, t, count)
  {
    ArrivedString(rs[k], t, col);
    RowStrings(rs, col);
    hide Row, Arrived, CStr, NulFree, Zeros;
  }

  lemma CutStrings(mem: seq<byte>, rs: seq<seq<byte>>, k: nat, t: nat, count: nat, col: nat)
    requires k < |rs| && Texts(rs, col) && col <= 0x8000_0000 && count > 0
    requires RecordsAt(mem, 0, rs[..k]) && |rs[k]| < 0x8000_0000 && CutAt(mem, EncodedLength(rs[..k]), rs[k], t)
    ensures Shown(Unpack(mem, 0, EncodedLength(rs[..k]) + t, 0, ZeroRows(count, col)), rs, k, t, count)
  {
    hide RecordsAt, Unpack, Row, Arrived, CStr, EncodedLength, Shown, CutLoaded, NulFree;
    CharsCut(mem, 0, rs[..k], rs[k], t, ZeroRows(count, col), 0, col);
    assert t > 0;
    hide CutAt;
    CutIsShown(Unpack(mem, 0, EncodedLength(rs[..k]) + t, 0, ZeroRows(count, col)), rs, k, t, count, col);
  }

  lemma WholeStrings(mem: seq<byte>, rs: seq<seq<byte>>, k: nat, count: nat, col: nat)
    requires k <= |rs| && Texts(rs, col) && count > 0 && RecordsAt(mem, 0, rs[..k]) && EncodedLength(rs[..k]) > 0
    ensures Shown(Unpack(mem, 0, EncodedLength(rs[..k]), 0, ZeroRows(count, col)), rs, k, 0, count)
  {
    assert rs[..k] != [];
    hide RecordsAt, Unpack, Row, Zeros, CStr, EncodedLength, Arrived;
    CharsRoundTrip(mem, 0, rs[..k], ZeroRows(count, col), 0, col);
    RowStrings(rs, col);
  }

  lemma TextsSized(rs: seq<seq<byte>>, col: nat)
    requires Texts(rs, col) && col <= 0x8000_0000
    ensures Sized(rs) && forall i :: 0 <= i < |rs| ==> |rs[i]| < col
  {
  }

  /** write_chars to read_chars through a read() that returned only n bytes of the encoding. */
  lemma CharsShortRead(rs: seq<seq<byte>>, n: nat, count: nat, col: nat, z: nat)
    requires 0 < n <= EncodedLength(rs) && Texts(rs, col)
    requires count > 0 && col <= 0x8000_0000 && INT_SIZE + col <= z
    ensures Sized(rs)
    ensures var k := WholeRecords(rs, n);
            var c := Unpack(ShortRead(rs, n, z), 0, n, 0, ZeroRows(count, col));
            EncodedLength(rs[..k]) <= n && Shown(c, rs, k, n - EncodedLength(rs[..k]), count)
  {
    hide *;
    TextsSized(rs, col);
    ShortReadIsCut(rs, n, z);
    var k := WholeRecords(rs, n);
    var t := n - EncodedLength(rs[..k]);
    if t > 0 {
      CutStrings(ShortRead(rs, n, z), rs, k, t, count, col);
    } else {
      WholeStrings(ShortRead(rs, n, z), rs, k, count, col);
    }
  }

  // ----- packed structs

  const ADDRESS_SIZE := 105  // sizeof(common::Address), packed: int, char[100], bool

  datatype Address = Address(attr1: int, attr2: seq<byte>, attr3: bool)

  predicate IsAddress(a: Address) {
    -0x8000_0000 <= a.attr1 < 0x8000_0000 && |a.attr2| == 100
  }

  function Packed(a: Address): (b: seq<byte>)
    requires IsAddress(a)
    ensures |b| == ADDRESS_SIZE
  {
    I32Le(a.attr1) + a.attr2 + [if a.attr3 then 1 else 0]
  }

  function Unpacked(b: seq<byte>): (a: Address)
    requires |b| == ADDRESS_SIZE
    ensures IsAddress(a)
  {
    Address(I32At(b, 0), b[4..104], b[104] != 0)
  }

  lemma PackedRoundTrip(a: Address)
    requires IsAddress(a)
    ensures Unpacked(Packed(a)) == a
  {
    hide I32Le, U32At;
    I32RoundTrip(a.attr1);
    var b := Packed(a);
    assert b[0..4] == I32Le(a.attr1)[0..4];
    SameWord(b, 0, I32Le(a.attr1), 0);
  }

  datatype Structs = Filled(memory: seq<byte>, index: nat, cursor: nat, remain: int) | OverrunStructs

  /** The do-while loop of read_structs over the num slots of memory. advance says whether index moves to the next
      slot after each record: the source as written never moves it; the intended loop, like read_chars, does. */
  function Fill(mem: seq<byte>, cursor: nat, remain: int, memory: seq<byte>, index: nat, num: nat, advance: bool)
    : (f: Structs)
    requires cursor <= |mem| && index < num && |memory| == num * ADDRESS_SIZE
    ensures f.Filled? ==> f.cursor + f.remain == cursor + remain && |f.memory| == |memory|
    decreases |mem| - cursor
  {
    if cursor + INT_SIZE > |mem| then OverrunStructs
    else
      var n := I32At(mem, cursor);
      var from, to := cursor + INT_SIZE, index * ADDRESS_SIZE;
      if n < 0 || to + n > |memory| || from + n > |mem| then OverrunStructs
      else
        var filled := memory[..to] + mem[from..from + n] + memory[to + n..];
        var next := if advance then index + 1 else index;
        if next < num && remain - INT_SIZE - n > 0
        then Fill(mem, from + n, remain - INT_SIZE - n, filled, next, num, advance)
        else Filled(filled, next, from + n, remain - INT_SIZE - n)
  }

  lemma FillOnce(mem: seq<byte>, cursor: nat, remain: int, memory: seq<byte>, num: nat, n: int)
    requires cursor <= |mem| && num > 0 && |memory| == num * ADDRESS_SIZE
    requires cursor + INT_SIZE <= |mem| ==> n == I32At(mem, cursor)
    ensures var from, left := cursor + INT_SIZE, remain - INT_SIZE - n;
            if from > |mem| || n < 0 || n > |memory| || from + n > |mem|
            then Fill(mem, cursor, remain, memory, 0, num, false) == OverrunStructs
            else
              var filled := memory[..0] + mem[from..from + n] + memory[n..];
              Fill(mem, cursor, remain, memory, 0, num, false) ==
              if left > 0 then Fill(mem, from + n, left, filled, 0, num, false) else Filled(filled, 0, from + n, left)
  {
    hide I32At;
  }

  method FillLoop(buffer: array<byte>, count: int, address: array<byte>, num: nat) returns (r: Structs)
    requires num > 0 && address.Length == num * ADDRESS_SIZE && address != buffer
    modifies address
    ensures r == Fill(buffer[..], 0, count, old(address[..]), 0, num, false)
    ensures r.Filled? ==> address[..] == r.memory
  {
    hide I32At, Fill;
    var remainLength, tmpPtr: nat, index: nat := count, 0, 0;
    ghost var mem, whole := buffer[..], Fill(buffer[..], 0, count, address[..], 0, num, false);
    while true
      invariant tmpPtr <= buffer.Length && index == 0
      invariant buffer[..] == mem
      invariant whole == Fill(mem, tmpPtr, remainLength, address[..], index, num, false)
      decreases buffer.Length - tmpPtr
    {
      if tmpPtr + INT_SIZE > buffer.Length {
        FillOnce(mem, tmpPtr, remainLength, address[..], num, 0);
        return OverrunStructs;
      }
      var dataLength := I32At(buffer[..], tmpPtr);
      ghost var before := address[..];
      FillOnce(mem, tmpPtr, remainLength, before, num, dataLength);
      tmpPtr, remainLength := tmpPtr + INT_SIZE, remainLength - INT_SIZE;
      if dataLength < 0 || index * ADDRESS_SIZE + dataLength > address.Length || tmpPtr + dataLength > buffer.Length {
        return OverrunStructs;
      }
      CopyIn(address, index * ADDRESS_SIZE, buffer[tmpPtr..tmpPtr + dataLength]);
      assert address[..] == before[..0] + mem[tmpPtr..tmpPtr + dataLength] + before[dataLength..];
      tmpPtr, remainLength := tmpPtr + dataLength, remainLength - dataLength;
      if index >= num || remainLength <= 0 {
        return Filled(address[..], index, tmpPtr, remainLength);
      }
    }
  }

  /** read_structs as written, in place; address is the malloc'd array of num structs. */
  method ReadStructs(buffer: array<byte>, count: int, address: array<byte>, num: nat) returns (r: Structs)
    requires num > 0 && address.Length == num * ADDRESS_SIZE && address != buffer
    modifies address
    ensures count <= 0 ==> r == Filled(old(address[..]), 0, 0, count) && address[..] == old(address[..])
    ensures count > 0 ==> r == Fill(buffer[..], 0, count, old(address[..]), 0, num, false)
    ensures r.Filled? ==> address[..] == r.memory
  {
    if count <= 0 {
      return Filled(address[..], 0, 0, count);
    }
    r := FillLoop(buffer, count, address, num);
  }

  predicate AllAddresses(items: seq<seq<byte>>) {
    forall i :: 0 <= i < |items| ==> |items[i]| == ADDRESS_SIZE
  }

  lemma {:induction false} AddressesLength(items: seq<seq<byte>>)
    requires AllAddresses(items)
    ensures EncodedLength(items) == (INT_SIZE + ADDRESS_SIZE) * |items|
  {
    if items != [] {
      AddressesLength(items[1..]);
    }
  }

  /** One pass over a struct record. */
  lemma FirstStruct(mem: seq<byte>, at: nat, r: seq<byte>, memory: seq<byte>, index: nat, num: nat, advance: bool,
                    after: nat)
    requires RecordAt(mem, at, r) && |r| == ADDRESS_SIZE && index < num && |memory| == num * ADDRESS_SIZE
    ensures var to := index * ADDRESS_SIZE;
            to + ADDRESS_SIZE <= |memory| &&
            var filled := memory[..to] + r + memory[to + ADDRESS_SIZE..];
            var next, i := at + INT_SIZE + ADDRESS_SIZE, if advance then index + 1 else index;
            Fill(mem, at, INT_SIZE + ADDRESS_SIZE + after, memory, index, num, advance) ==
            if i < num && after > 0 then Fill(mem, next, after, filled, i, num, advance)
            else Filled(filled, i, next, after)
  {
    hide I32At;
  }

  /** As written: every record lands in slot 0, so the last one stays there; exactly 109 bytes a record are
      consumed, and the loop ends with the input. */
  lemma {:induction false} StructsAsWritten(mem: seq<byte>, at: nat, items: seq<seq<byte>>, memory: seq<byte>, num: nat)
    requires items != [] && AllAddresses(items) && RecordsAt(mem, at, items) && at <= |mem|
    requires num > 0 && |memory| == num * ADDRESS_SIZE
    ensures Fill(mem, at, EncodedLength(items), memory, 0, num, false) ==
            Filled(items[|items| - 1] + memory[ADDRESS_SIZE..], 0, at + (INT_SIZE + ADDRESS_SIZE) * |items|, 0)
    decreases |items|
  {
    hide I32At;
    assert RecordAt(mem, at, items[0]) && at + INT_SIZE + ADDRESS_SIZE <= |mem|;
    hide RecordAt, Fill;
    var rest := items[1..];
    AddressesLength(items);
    AddressesLength(rest);
    FirstStruct(mem, at, items[0], memory, 0, num, false, EncodedLength(rest));
    var filled := memory[..0] + items[0] + memory[ADDRESS_SIZE..];
    assert filled == items[0] + memory[ADDRESS_SIZE..];
    if rest != [] {
      StructsAsWritten(mem, at + INT_SIZE + ADDRESS_SIZE, rest, filled, num);
      assert filled[ADDRESS_SIZE..] == memory[ADDRESS_SIZE..];
    }
  }

  /** The pass over a struct cut short: what has arrived and zeros for the rest go to slot 0, and remain goes
      negative, which ends the loop. */
  lemma CutStruct(mem: seq<byte>, at: nat, r: seq<byte>, t: nat, memory: seq<byte>, num: nat)
    requires |r| == ADDRESS_SIZE && CutAt(mem, at, r, t) && num > 0 && |memory| == num * ADDRESS_SIZE
    ensures Fill(mem, at, t, memory, 0, num, false) ==
            Filled(Row(Arrived(r, t), ADDRESS_SIZE) + memory[ADDRESS_SIZE..], 0, at + INT_SIZE + ADDRESS_SIZE,
                   t - INT_SIZE - ADDRESS_SIZE)
  {
    hide I32At;
    CutWord(mem, at, r, t);
    CutData(mem, at, r, t, ADDRESS_SIZE);
    FillOnce(mem, at, t, memory, num, ADDRESS_SIZE);
    hide Fill;
    var row := Row(Arrived(r, t), ADDRESS_SIZE);
    assert memory[..0] + row + memory[ADDRESS_SIZE..] == row + memory[ADDRESS_SIZE..];
  }

  /** As written, behind whole structs: slot 0 ends as the struct cut short, padded with zeros. */
  lemma {:induction false} StructsCut(mem: seq<byte>, at: nat, items: seq<seq<byte>>, r: seq<byte>, t: nat,
                                      memory: seq<byte>, num: nat)
    requires AllAddresses(items) && RecordsAt(mem, at, items)
    requires |r| == ADDRESS_SIZE && CutAt(mem, at + EncodedLength(items), r, t)
    requires num > 0 && |memory| == num * ADDRESS_SIZE
    ensures Fill(mem, at, EncodedLength(items) + t, memory, 0, num, false) ==
            Filled(Row(Arrived(r, t), ADDRESS_SIZE) + memory[ADDRESS_SIZE..], 0,
                   at + EncodedLength(items) + INT_SIZE + ADDRESS_SIZE, t - INT_SIZE - ADDRESS_SIZE)
    decreases |items|
  {
    hide I32At, Fill, Row, RecordAt, RecordsAt, EncodedLength, CutAt, Arrived;
    if items == [] {
      NoRecords(items);
      CutStruct(mem, at, r, t, memory, num);
    } else {
      CutBehindFirst(mem, at, items, r, t);
      var rest, next := items[1..], at + INT_SIZE + ADDRESS_SIZE;
      FirstStruct(mem, at, items[0], memory, 0, num, false, EncodedLength(rest) + t);
      var filled := memory[..0] + items[0] + memory[ADDRESS_SIZE..];
      assert filled == items[0] + memory[ADDRESS_SIZE..];
      StructsCut(mem, next, rest, r, t, filled, num);
      assert filled[ADDRESS_SIZE..] == memory[ADDRESS_SIZE..];
    }
  }

  /** write_structs to read_structs, as written, through a read() that returned only n bytes: the last struct that
      has begun to arrive is in slot 0, with zeros for the bytes that have not. */
  lemma StructsShortRead(items: seq<seq<byte>>, n: nat, memory: seq<byte>, num: nat, z: nat)
    requires AllAddresses(items) && 0 < n <= EncodedLength(items) && INT_SIZE + ADDRESS_SIZE <= z
    requires num > 0 && |memory| == num * ADDRESS_SIZE
    ensures Sized(items)
    ensures var k := WholeRecords(items, n);
            var t := n - EncodedLength(items[..k]);
            && 0 <= t && (t > 0 ==> k < |items|) && (t == 0 ==> k > 0)
            && Fill(ShortRead(items, n, z), 0, n, memory, 0, num, false) ==
               Filled((if t > 0 then Row(Arrived(items[k], t), ADDRESS_SIZE) else items[k - 1])
                      + memory[ADDRESS_SIZE..],
                      0, n + (if t > 0 then INT_SIZE + ADDRESS_SIZE - t else 0),
                      if t > 0 then t - INT_SIZE - ADDRESS_SIZE else 0)
  {
    hide RecordsAt, Fill, CutAt, Row, Arrived, Encode, ShortRead, WholeRecords;
    ShortReadIsCut(items, n, z);
    var k := WholeRecords(items, n);
    var t := n - EncodedLength(items[..k]);
    if t > 0 {
      StructsCut(ShortRead(items, n, z), 0, items[..k], items[k], t, memory, num);
    } else {
      assert items[..k] != [];
      AddressesLength(items[..k]);
      StructsAsWritten(ShortRead(items, n, z), 0, items[..k], memory, num);
    }
  }

  function Slot(memory: seq<byte>, i: nat): (b: seq<byte>)
    requires (i + 1) * ADDRESS_SIZE <= |memory|
  {
    memory[i * ADDRESS_SIZE..(i + 1) * ADDRESS_SIZE]
  }

  /** Slots index to index + k of memory have been replaced by the first k of the struct records items. */
  ghost predicate SlotsLoaded(f: Structs, memory: seq<byte>, index: nat, k: nat, items: seq<seq<byte>>, at: nat,
                              num: nat)
    requires k <= |items| && index + k <= num && |memory| == num * ADDRESS_SIZE
  {
    && f.Filled? && f.index == index + k && |f.memory| == |memory|
    && f.cursor == at + (INT_SIZE + ADDRESS_SIZE) * k && f.remain == (INT_SIZE + ADDRESS_SIZE) * (|items| - k)
    && (forall i :: index <= i < index + k ==> Slot(f.memory, i) == items[i - index])
    && (forall i :: 0 <= i < index || index + k <= i < num ==> Slot(f.memory, i) == Slot(memory, i))
  }

  /** items[0] over slot index of memory. */
  function SlotSet(memory: seq<byte>, index: nat, r: seq<byte>): (m: seq<byte>)
    requires |r| == ADDRESS_SIZE && (index + 1) * ADDRESS_SIZE <= |memory|
    ensures |m| == |memory|
  {
    memory[..index * ADDRESS_SIZE] + r + memory[(index + 1) * ADDRESS_SIZE..]
  }

  lemma SlotsAfter(memory: seq<byte>, r: seq<byte>, index: nat, num: nat)
    requires |r| == ADDRESS_SIZE && index < num && |memory| == num * ADDRESS_SIZE
    ensures var filled := SlotSet(memory, index, r);
            Slot(filled, index) == r && forall i :: 0 <= i < num && i != index ==> Slot(filled, i) == Slot(memory, i)
  {
    var to := index * ADDRESS_SIZE;
    var filled := SlotSet(memory, index, r);
    forall i | 0 <= i < num && i != index
      ensures Slot(filled, i) == Slot(memory, i)
    {
      var lo, hi := i * ADDRESS_SIZE, (i + 1) * ADDRESS_SIZE;
      assert hi <= |memory|;
      if i < index {
        assert hi <= to;
      } else {
        assert lo >= to + ADDRESS_SIZE;
      }
      forall k | lo <= k < hi
        ensures filled[k] == memory[k]
      {
      }
      assert filled[lo..hi] == memory[lo..hi];
    }
  }

  lemma SlotsLoadedCons(f: Structs, memory: seq<byte>, index: nat, k: nat, items: seq<seq<byte>>, at: nat, num: nat)
    requires 0 < k <= |items| && index + k <= num && |memory| == num * ADDRESS_SIZE && |items[0]| == ADDRESS_SIZE
    requires SlotsLoaded(f, SlotSet(memory, index, items[0]), index + 1, k - 1, items[1..],
                         at + INT_SIZE + ADDRESS_SIZE, num)
    ensures SlotsLoaded(f, memory, index, k, items, at, num)
  {
    SlotsAfter(memory, items[0], index, num);
    hide Slot, SlotSet;
    forall i | index <= i < index + k
      ensures Slot(f.memory, i) == items[i - index]
    {
      if i > index {
        assert items[i - index] == items[1..][i - (index + 1)];
      }
    }
  }

  lemma SlotsLoadedNone(memory: seq<byte>, index: nat, items: seq<seq<byte>>, at: nat, num: nat)
    requires index <= num && |memory| == num * ADDRESS_SIZE
    ensures SlotsLoaded(Filled(memory, index, at, (INT_SIZE + ADDRESS_SIZE) * |items|),
                        memory, index, 0, items, at, num)
  {
    hide Slot;
  }

  /** The intended loop: the first records fill the slots in order, as many as there are slots. */
  lemma {:induction false} StructsIntended(mem: seq<byte>, at: nat, items: seq<seq<byte>>, memory: seq<byte>,
                                           index: nat, num: nat)
    requires items != [] && AllAddresses(items) && RecordsAt(mem, at, items) && at <= |mem|
    requires index < num && |memory| == num * ADDRESS_SIZE
    ensures SlotsLoaded(Fill(mem, at, EncodedLength(items), memory, index, num, true),
                        memory, index, Min(num - index, |items|), items, at, num)
    decreases |items|
  {
    hide I32At, RecordAt, RecordsAt, Fill, Slot, SlotsLoaded, EncodedLength, Min;
    var rest, next, k := items[1..], at + INT_SIZE + ADDRESS_SIZE, Min(num - index, |items|);
    var f := Fill(mem, at, EncodedLength(items), memory, index, num, true);
    var filled := SlotSet(memory, index, items[0]);
    AddressesLength(rest);
    BehindFirst(mem, at, items);
    MinNext(num - index, |items|);
    assert memory[..index * ADDRESS_SIZE] + items[0] + memory[index * ADDRESS_SIZE + ADDRESS_SIZE..] == filled;
    FirstStruct(mem, at, items[0], memory, index, num, true, EncodedLength(rest));
    hide SlotSet;
    if index + 1 < num && rest != [] {
      StructsIntended(mem, next, rest, filled, index + 1, num);
    } else {
      SlotsLoadedNone(filled, index + 1, rest, next, num);
    }
    SlotsLoadedCons(f, memory, index, k, items, at, num);
  }

  /** Every slot that has a record holds it. */
  ghost predicate AllDelivered(memory: seq<byte>, items: seq<seq<byte>>, num: nat)
    requires |memory| == num * ADDRESS_SIZE
  {
    forall i :: 0 <= i < Min(num, |items|) ==> Slot(memory, i) == items[i]
  }

  /** The slots as read_structs prepares them: attr2 is zeroed, attr1 and attr3 are whatever malloc gave. */
  predicate Prepared(memory: seq<byte>, num: nat)
    requires |memory| == num * ADDRESS_SIZE
  {
    forall i, k :: 0 <= i < num && 4 <= k < 104 ==> Slot(memory, i)[k] == 0
  }

  /** The loop as written, over a prepared memory, puts every record into its slot. */
  ghost predicate Delivers(mem: seq<byte>, items: seq<seq<byte>>, memory: seq<byte>, num: nat)
    requires items != [] && num > 0 && |memory| == num * ADDRESS_SIZE
  {
    var f := Fill(mem, 0, EncodedLength(items), memory, 0, num, false);
    f.Filled? && AllDelivered(f.memory, items, num)
  }

  /** A memory prepared for num slots whose first attr1 bytes are all b. */
  lemma Tainted(b: byte, num: nat) returns (memory: seq<byte>)
    ensures |memory| == num * ADDRESS_SIZE && Prepared(memory, num)
    ensures forall i :: 0 <= i < num ==> memory[i * ADDRESS_SIZE] == b
  {
    memory := seq(num * ADDRESS_SIZE, i => if i % ADDRESS_SIZE == 0 then b else 0);
    forall i, k | 0 <= i < num && 4 <= k < 104
      ensures Slot(memory, i)[k] == 0
    {
      assert (i * ADDRESS_SIZE + k) % ADDRESS_SIZE == k;
    }
    forall i | 0 <= i < num
      ensures memory[i * ADDRESS_SIZE] == b
    {
      assert i * ADDRESS_SIZE % ADDRESS_SIZE == 0;
    }
  }

  /** As written, read_structs is certain to deliver every record for which there is a slot, whatever malloc gave,
      exactly when there is only one record, or only one slot and the last record equals the first. */
  lemma AsWrittenDeliversOnlyOne(mem: seq<byte>, items: seq<seq<byte>>, num: nat)
    requires items != [] && AllAddresses(items) && RecordsAt(mem, 0, items) && num > 0
    ensures (forall memory: seq<byte> | |memory| == num * ADDRESS_SIZE && Prepared(memory, num) ::
               Delivers(mem, items, memory, num))
            <==> |items| == 1 || (num == 1 && items[|items| - 1] == items[0])
  {
    var last := items[|items| - 1];
    hide Fill, RecordsAt, Prepared;
    forall memory: seq<byte> | |memory| == num * ADDRESS_SIZE
      ensures Delivers(mem, items, memory, num) <==> AllDelivered(last + memory[ADDRESS_SIZE..], items, num)
    {
      StructsAsWritten(mem, 0, items, memory, num);
    }
    if |items| == 1 || (num == 1 && last == items[0]) {
      forall memory: seq<byte> | |memory| == num * ADDRESS_SIZE
        ensures AllDelivered(last + memory[ADDRESS_SIZE..], items, num)
      {
        assert Slot(last + memory[ADDRESS_SIZE..], 0) == last;
      }
    } else {
      var other: byte := if items[1][0] == 0 then 1 else 0;
      var memory := Tainted(other, num);
      var m := last + memory[ADDRESS_SIZE..];
      assert Slot(m, 0) == last;
      if num > 1 {
        assert m[ADDRESS_SIZE] == memory[ADDRESS_SIZE] == other;
        assert Slot(m, 1)[0] == other != items[1][0];
      }
      assert !AllDelivered(m, items, num);
    }
  }

  predicate AreAddresses(addresses: seq<Address>) {
    forall i :: 0 <= i < |addresses| ==> IsAddress(addresses[i])
  }

  function PackedAll(addresses: seq<Address>): (items: seq<seq<byte>>)
    requires AreAddresses(addresses)
    ensures Sized(items) && |items| == |addresses|
    ensures forall i :: 0 <= i < |items| ==> items[i] == Packed(addresses[i])
  {
    seq(|addresses|, i requires 0 <= i < |addresses| => Packed(addresses[i]))
  }

  /** The 105 bytes of the packed struct: attr1 in two's complement, low byte first; the 100 bytes of attr2; 1 for a
      true attr3 and 0 for a false one. */
  predicate AddressBytes(mem: seq<byte>, at: nat, a: Address)
    requires IsAddress(a)
  {
    && at + ADDRESS_SIZE <= |mem|
    && mem[at] as int + 256 * mem[at + 1] as int + 65536 * mem[at + 2] as int + 16777216 * mem[at + 3] as int
       == (if a.attr1 >= 0 then a.attr1 else a.attr1 + 0x1_0000_0000)
    && mem[at + 4..at + 104] == a.attr2
    && mem[at + 104] == if a.attr3 then 1 else 0
  }

  lemma PackedLayout(a: Address)
    requires IsAddress(a)
    ensures AddressBytes(Packed(a), 0, a)
  {
    I32RoundTrip(a.attr1);
    var b := Packed(a);
    assert forall k :: 0 <= k < 4 ==> b[k] == I32Le(a.attr1)[k];
    assert U32At(I32Le(a.attr1), 0) == if a.attr1 >= 0 then a.attr1 else a.attr1 + 0x1_0000_0000;
    hide I32Le;
  }

  /** Whatever 105 bytes are read as an Address, they are its layout, but for a true attr3 that is not 1. */
  lemma UnpackedLayout(b: seq<byte>)
    requires |b| == ADDRESS_SIZE
    ensures Unpacked(b).attr3 <==> b[104] != 0
    ensures AddressBytes(b[104 := if b[104] == 0 then 0 else 1], 0, Unpacked(b))
  {
  }

  lemma AddressBytesIn(mem: seq<byte>, at: nat, a: Address)
    requires IsAddress(a) && at + ADDRESS_SIZE <= |mem| && mem[at..at + ADDRESS_SIZE] == Packed(a)
    ensures AddressBytes(mem, at, a)
  {
    PackedLayout(a);
    var b := Packed(a);
    assert forall k :: at <= k < at + ADDRESS_SIZE ==> mem[k] == mem[at..at + ADDRESS_SIZE][k - at];
    assert mem[at + 4..at + 104] == b[4..104];
    hide Packed;
  }

  lemma RecordParts(r: seq<byte>)
    requires |r| < 0x8000_0000
    ensures Record(r)[0..INT_SIZE] == U32Le(|r|) && Record(r)[INT_SIZE..INT_SIZE + |r|] == r
  {
    hide U32Le;
  }

  lemma WordBytes(mem: seq<byte>, at: nat)
    requires at + INT_SIZE <= |mem|
    ensures mem[at] as int + 256 * mem[at + 1] as int + 65536 * mem[at + 2] as int + 16777216 * mem[at + 3] as int
            == U32At(mem, at)
  {
  }

  /** Where the i-th record lies in an encoding, and what its four length bytes are. */
  lemma RecordInEncoding(items: seq<seq<byte>>, i: nat, mem: seq<byte>)
    requires Sized(items) && i < |items| && Encode(items) <= mem
    ensures var at, r := EncodedLength(items[..i]), items[i];
            && at + INT_SIZE + |r| <= |mem| && mem[at + INT_SIZE..at + INT_SIZE + |r|] == r
            && mem[at] as int + 256 * mem[at + 1] as int + 65536 * mem[at + 2] as int + 16777216 * mem[at + 3] as int
               == |r|
  {
    hide Encode, EncodedLength, Sized, Record, U32At, U32Le;
    var at, r := EncodedLength(items[..i]), items[i];
    EncodeSplit(items, i);
    RecordParts(r);
    var b := Encode(items);
    assert b[at..] == Encode(items[i..]);
    assert mem[at..at + INT_SIZE + |r|] == b[at..][..INT_SIZE + |r|] == Record(r);
    SubSlice(mem, at, Record(r), INT_SIZE, INT_SIZE + |r|);
    SubSlice(mem, at, Record(r), 0, INT_SIZE);
    U32Stored(mem, at, |r|);
    WordBytes(mem, at);
  }

  /** The i-th struct record: its length word, 105 with the low byte first, and the struct. */
  predicate StructAt(mem: seq<byte>, i: nat, a: Address)
    requires IsAddress(a)
  {
    var at := (INT_SIZE + ADDRESS_SIZE) * i;
    && at + INT_SIZE + ADDRESS_SIZE <= |mem|
    && mem[at..at + INT_SIZE] == [ADDRESS_SIZE as byte, 0, 0, 0]
    && AddressBytes(mem, at + INT_SIZE, a)
  }

  lemma StructInEncoding(addresses: seq<Address>, i: nat, mem: seq<byte>)
    requires AreAddresses(addresses) && i < |addresses| && Encode(PackedAll(addresses)) <= mem
    ensures StructAt(mem, i, addresses[i])
  {
    hide Encode, EncodedLength, Packed, PackedAll, AddressBytes, Sized;
    var items := PackedAll(addresses);
    RecordInEncoding(items, i, mem);
    AddressesLength(items[..i]);
    var at := (INT_SIZE + ADDRESS_SIZE) * i;
    AddressBytesIn(mem, at + INT_SIZE, addresses[i]);
    assert mem[at] == 105 && mem[at + 1] == 0 && mem[at + 2] == 0 && mem[at + 3] == 0;
  }

  /** The loop of write_structs. */
  method WriteStructs(addresses: array<Address>, ptr: array<byte>) returns (totalLength: nat)
    requires AreAddresses(addresses[..]) && (INT_SIZE + ADDRESS_SIZE) * addresses.Length <= ptr.Length
    modifies ptr
    ensures totalLength == (INT_SIZE + ADDRESS_SIZE) * addresses.Length
    ensures ptr[..totalLength] == Encode(PackedAll(addresses[..]))
    ensures ptr[totalLength..] == old(ptr[totalLength..])
    ensures forall i :: 0 <= i < addresses.Length ==> StructAt(ptr[..], i, addresses[i])
  {
    AddressesLength(PackedAll(addresses[..]));
    totalLength := PackAll(PackedAll(addresses[..]), ptr);
    hide Encode, EncodedLength, Packed, StructAt;
    forall i | 0 <= i < addresses.Length
      ensures StructAt(ptr[..], i, addresses[i])
    {
      assert ptr[..totalLength] <= ptr[..];
      StructInEncoding(addresses[..], i, ptr[..]);
    }
  }

  /** The struct records of addresses, at the start of a buffer. */
  lemma StructRecords(addresses: seq<Address>, after: seq<byte>)
    requires AreAddresses(addresses)
    ensures var items := PackedAll(addresses);
            && RecordsAt(Encode(items) + after, 0, items)
            && |Encode(items)| == EncodedLength(items) == (INT_SIZE + ADDRESS_SIZE) * |addresses|
    ensures forall i :: 0 <= i < |addresses| ==> Unpacked(PackedAll(addresses)[i]) == addresses[i]
  {
    var items := PackedAll(addresses);
    hide Record, RecordsAt, Encode, Packed, Unpacked;
    AddressesLength(items);
    EncodeIsRecords([], items, after);
    assert [] + Encode(items) + after == Encode(items) + after;
    forall i | 0 <= i < |addresses|
      ensures Unpacked(items[i]) == addresses[i]
    {
      PackedRoundTrip(addresses[i]);
    }
  }

  /** write_structs to read_structs: as written, the first slot reads as the last address; with index advanced, the
      slots read as the addresses in order. */
  lemma StructsDelivered(addresses: seq<Address>, memory: seq<byte>, num: nat, after: seq<byte>, mem: seq<byte>, n: nat)
    requires addresses != [] && AreAddresses(addresses) && num > 0 && |memory| == num * ADDRESS_SIZE
    requires mem == Encode(PackedAll(addresses)) + after && n == |Encode(PackedAll(addresses))|
    ensures n == (INT_SIZE + ADDRESS_SIZE) * |addresses|
    ensures var f := Fill(mem, 0, n, memory, 0, num, false);
            && f.Filled? && f.cursor == n && f.remain == 0
            && Unpacked(Slot(f.memory, 0)) == addresses[|addresses| - 1]
    ensures var f := Fill(mem, 0, n, memory, 0, num, true);
            && f.Filled? && f.index == Min(num, |addresses|)
            && forall i :: 0 <= i < f.index ==> Unpacked(Slot(f.memory, i)) == addresses[i]
  {
    var items := PackedAll(addresses);
    StructRecords(addresses, after);
    hide Record, RecordsAt, RecordAt, Fill, Encode, EncodedLength, Packed, Unpacked;
    StructsAsWritten(mem, 0, items, memory, num);
    StructsIntended(mem, 0, items, memory, 0, num);
    var last := items[|items| - 1];
    assert Slot(last + memory[ADDRESS_SIZE..], 0) == last;
  }
}

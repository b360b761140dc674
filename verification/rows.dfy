/** Tables as they lie in a blob: equal-sized rows one after the other. */
module Rows {
  import opened Bytes

  /** Writing a row and reading it are inverse to one another. */
  ghost predicate Inverse<T(!new)>(enc: T -> seq<Byte>, dec: seq<Byte> --> T, size: nat) {
    && (forall x :: |enc(x)| == size && dec.requires(enc(x)) && dec(enc(x)) == x)
    && (forall s: seq<Byte> {:trigger dec.requires(s)} :: |s| == size ==> dec.requires(s) && enc(dec(s)) == s)
  }

  function EncodeRows<T(!new)>(enc: T -> seq<Byte>, rows: seq<T>): seq<Byte> {
    if rows == [] then [] else enc(rows[0]) + EncodeRows(enc, rows[1..])
  }

  /** Where the second row of n starts. */
  lemma RowsLeft(n: nat, size: nat)
    requires n > 0
    ensures n * size == size + (n - 1) * size
  {
  }

  function DecodeRows<T(!new)>(dec: seq<Byte> --> T, size: nat, n: nat, s: seq<Byte>): (rows: seq<T>)
    requires forall row: seq<Byte> {:trigger dec.requires(row)} :: |row| == size ==> dec.requires(row)
    requires |s| >= n * size
    ensures |rows| == n
    decreases n
  {
    if n == 0 then []
    else
      RowsLeft(n, size);
      [dec(s[..size])] + DecodeRows(dec, size, n - 1, s[size..])
  }

  lemma {:induction false} EncodedSize<T(!new)>(enc: T -> seq<Byte>, dec: seq<Byte> --> T, size: nat, rows: seq<T>)
    requires Inverse(enc, dec, size)
    ensures |EncodeRows(enc, rows)| == |rows| * size
  {
    if rows != [] {
      EncodedSize(enc, dec, size, rows[1..]);
      RowsLeft(|rows|, size);
    }
  }

  lemma {:induction false} EncodeAppend<T(!new)>(enc: T -> seq<Byte>, rows: seq<T>, x: T)
    ensures EncodeRows(enc, rows + [x]) == EncodeRows(enc, rows) + enc(x)
  {
    if rows != [] {
      assert (rows + [x])[1..] == rows[1..] + [x];
      EncodeAppend(enc, rows[1..], x);
    } else {
      assert [x][1..] == [];
      assert [] + [x] == [x];
    }
  }

  /** Exactly the rows a stretch of bytes was written from are read out of it. */
  lemma {:induction false} RowsExactly<T(!new)>(enc: T -> seq<Byte>, dec: seq<Byte> --> T, size: nat, s: seq<Byte>, rows: seq<T>)
    requires Inverse(enc, dec, size) && |s| >= |rows| * size
    ensures DecodeRows(dec, size, |rows|, s) == rows <==> EncodeRows(enc, rows) == s[..|rows| * size]
    decreases |rows|
  {
    var n := |rows|;
    if n > 0 {
      RowsLeft(n, size);
      var x, rest := rows[0], rows[1..];
      RowsExactly(enc, dec, size, s[size..], rest);
      EncodedSize(enc, dec, size, rest);
      assert s[..n * size] == s[..size] + s[size..][..(n - 1) * size];
      if EncodeRows(enc, rows) == s[..n * size] {
        assert EncodeRows(enc, rows)[..size] == enc(x) && EncodeRows(enc, rows)[size..] == EncodeRows(enc, rest);
        assert s[..n * size][..size] == s[..size] && s[..n * size][size..] == s[size..][..(n - 1) * size];
      }
      var got := DecodeRows(dec, size, n, s);
      assert got[0] == dec(s[..size]) && got[1..] == DecodeRows(dec, size, n - 1, s[size..]);
      assert rows == [x] + rest;
    }
  }

  /** Copying bytes into a buffer at an offset. */
  method CopyInto(buf: array<Byte>, off: nat, bytes: seq<Byte>)
    requires off + |bytes| <= buf.Length
    modifies buf
    ensures buf[..] == old(buf[..off]) + bytes + old(buf[off + |bytes|..])
  {
    for i := 0 to |bytes|
      invariant buf[..] == old(buf[..off]) + bytes[..i] + old(buf[off + i..])
    {
      buf[off + i] := bytes[i];
    }
  }

  lemma {:induction false} RowAt<T(!new)>(dec: seq<Byte> --> T, size: nat, n: nat, s: seq<Byte>, i: nat)
    requires forall row: seq<Byte> {:trigger dec.requires(row)} :: |row| == size ==> dec.requires(row)
    requires |s| >= n * size && i < n
    ensures i * size <= (i + 1) * size <= |s| && (i + 1) * size == i * size + size
    ensures DecodeRows(dec, size, n, s)[i] == dec(s[i * size..(i + 1) * size])
    decreases i
  {
    RowsLeft(n, size);
    RowsLeft(i + 1, size);
    RowsFit(i + 1, n, size);
    if i > 0 {
      RowsLeft(i, size);
      RowAt(dec, size, n - 1, s[size..], i - 1);
      Shifted(s, size, (i - 1) * size);
    }
  }

  lemma Shifted(s: seq<Byte>, size: nat, at: nat)
    requires at + size + size <= |s|
    ensures s[size..][at..at + size] == s[at + size..at + size + size]
  {
  }

  /** Reads n rows into the front of a table. */
  method ReadInto<T(!new)>(table: array<T>, dec: seq<Byte> --> T, size: nat, n: nat, s: seq<Byte>)
    requires forall row: seq<Byte> {:trigger dec.requires(row)} :: |row| == size ==> dec.requires(row)
    requires n <= table.Length && |s| >= n * size
    modifies table
    ensures table[..n] == DecodeRows(dec, size, n, s) && table[n..] == old(table[n..])
  {
    hide DecodeRows;
    for i := 0 to n
      invariant table[..i] == DecodeRows(dec, size, n, s)[..i]
      invariant table[n..] == old(table[n..])
    {
      RowAt(dec, size, n, s, i);
      table[i] := dec(s[i * size..(i + 1) * size]);
    }
  }

  /** Writes the first n rows of a table into a buffer. */
  method WriteFrom<T(!new)>(buf: array<Byte>, off: nat, table: array<T>, enc: T -> seq<Byte>, size: nat, n: nat)
    requires n <= table.Length && off + n * size <= buf.Length && forall x :: |enc(x)| == size
    requires table as object != buf as object
    modifies buf
    ensures |EncodeRows(enc, table[..n])| == n * size
    ensures buf[..] == old(buf[..off]) + EncodeRows(enc, table[..n]) + old(buf[off + n * size..])
  {
    hide EncodeRows;
    NoRows(enc);
    var at := off;
    for i := 0 to n
      invariant at == off + i * size <= off + n * size
      invariant |EncodeRows(enc, table[..i])| == at - off
      invariant buf[..] == old(buf[..off]) + EncodeRows(enc, table[..i]) + old(buf[at..])
    {
      assert table[..i + 1] == table[..i] + [table[i]];
      EncodeAppend(enc, table[..i], table[i]);
      RowsLeft(i + 1, size);
      RowsFit(i + 1, n, size);
      ghost var row := enc(table[i]);
      CopyInto(buf, at, enc(table[i]));
      Spliced(old(buf[..]), off, EncodeRows(enc, table[..i]), row, at);
      at := at + size;
    }
  }

  lemma Spliced(b: seq<Byte>, off: nat, rows: seq<Byte>, row: seq<Byte>, at: nat)
    requires off + |rows| == at && at + |row| <= |b|
    ensures
      var now := b[..off] + rows + b[at..];
      now[..at] + row + now[at + |row|..] == b[..off] + (rows + row) + b[at + |row|..]
  {
  }

  lemma RowsFit(i: nat, n: nat, size: nat)
    requires i <= n
    ensures i * size <= n * size
  {
  }

  lemma NoRows<T(!new)>(enc: T -> seq<Byte>)
    ensures EncodeRows(enc, []) == []
  {
  }
}

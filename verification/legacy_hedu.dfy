/**
 * `dump` of the earlier hex dumper crate (libpt-hedu): eight bytes per line, each line
 * opened by its offset as eight upper-case hex digits and a tab, each byte as two hex digits
 * and a space, and a newline after every eighth byte. The bytes arrive one by one from a
 * reader; the first failed read aborts the dump through `unwrap`, after whatever was printed
 * before it. Standard output is the returned string.
 */
module LegacyHedu {
  import opened Fmt

  /** The cause of a failed read, left abstract. */
  datatype ReadError = ReadError

  /** One item of `data.bytes()`: a byte, or the error of the read that should have given it. */
  datatype Item = Byte(value: byte) | Failed(error: ReadError)

  /** How the call ended: it returned `Ok(())`, or it panicked on the item at index `at`. */
  datatype Outcome = Finished | Panicked(at: nat)

  /** `{:08X}\t` */
  function Label(i: nat): string
  {
    Formatted(i, 16, 8) + "\t"
  }

  /** What the loop prints for the byte `b` at index `i`. */
  function Piece(i: nat, b: byte): string
  {
    (if i % 8 == 0 then Label(i) else "") + Hex2(b) + " " + (if i % 8 == 7 then "\n" else "")
  }

  /** The text printed for the bytes `bs`, the first at index 0. */
  function Rendered(bs: seq<byte>): (r: string)
    // at least two digits and a space for every byte
    ensures |r| >= 3 * |bs|
  {
    if bs == [] then ""
    else
      Hex2RoundTrip(bs[|bs| - 1]);
      Rendered(bs[..|bs| - 1]) + Piece(|bs| - 1, bs[|bs| - 1])
  }

  /** The bytes of items that are all bytes. */
  function Values(items: seq<Item>): (bs: seq<byte>)
    requires forall i :: 0 <= i < |items| ==> items[i].Byte?
    ensures |bs| == |items| && forall i :: 0 <= i < |items| ==> bs[i] == items[i].value
  {
    seq(|items|, i requires 0 <= i < |items| => items[i].value)
  }

  method Dump(data: seq<Item>) returns (out: string, r: Outcome)
    ensures r.Finished? <==> forall i :: 0 <= i < |data| ==> data[i].Byte?
    ensures r.Finished? ==> out == Rendered(Values(data))
    // on the first failed item the offset label (if due) is already out, then `unwrap` panics
    ensures r.Panicked? ==>
              && r.at < |data| && data[r.at].Failed?
              && (forall i :: 0 <= i < r.at ==> data[i].Byte?)
              && out == Rendered(Values(data[..r.at])) + (if r.at % 8 == 0 then Label(r.at) else "")
  {
    out := "";
    var i := 0;
    while i < |data|
      invariant 0 <= i <= |data|
      invariant forall j :: 0 <= j < i ==> data[j].Byte?
      invariant out == Rendered(Values(data[..i]))
    {
      ghost var before := out;
      var opener := if i % 8 == 0 then Label(i) else "";
      out := out + opener;
      if data[i].Failed? {
        return out, Panicked(i);
      }
      var b := data[i].value;
      var cell := Hex2(b) + " " + (if i % 8 == 7 then "\n" else "");
      out := out + cell;
      PieceAppend(before, i, b);
      ValuesSnoc(data, i);
      RenderedSnoc(Values(data[..i]), b);
      i := i + 1;
    }
    assert data[..i] == data;
    r := Finished;
  }

  /** Printing the label and then the cell prints the piece. */
  lemma PieceAppend(before: string, i: nat, b: byte)
    ensures (before + (if i % 8 == 0 then Label(i) else "")) + (Hex2(b) + " " + (if i % 8 == 7 then "\n" else ""))
            == before + Piece(i, b)
  {
  }

  lemma ValuesSnoc(data: seq<Item>, i: nat)
    requires i < |data| && forall j :: 0 <= j <= i ==> data[j].Byte?
    ensures Values(data[..i + 1]) == Values(data[..i]) + [data[i].value]
  {
  }

  lemma RenderedSnoc(bs: seq<byte>, b: byte)
    ensures Rendered(bs + [b]) == Rendered(bs) + Piece(|bs|, b)
  {
    assert (bs + [b])[..|bs|] == bs;
  }

  // ---------------------------------------------------------------------------------------
  // Lines of eight

  /** The hex cells of a run of bytes: two digits and a space each. */
  function HexRun(bs: seq<byte>): string
  {
    if bs == [] then "" else HexRun(bs[..|bs| - 1]) + Hex2(bs[|bs| - 1]) + " "
  }

  /** One output line: the offset of its first byte, a tab, up to eight cells, and a newline if full. */
  function Row(offset: nat, chunk: seq<byte>): string
  {
    Label(offset) + HexRun(chunk) + (if |chunk| == 8 then "\n" else "")
  }

  /**
   * The dump is line-oriented: after the lines of the first |p| bytes (a multiple of 8), the
   * next one to eight bytes print as one row labelled with offset |p|.
   */
  lemma {:induction false} RowAppended(p: seq<byte>, chunk: seq<byte>)
    requires |p| % 8 == 0 && 1 <= |chunk| <= 8
    ensures Rendered(p + chunk) == Rendered(p) + Row(|p|, chunk)
    decreases |chunk|
  {
    var init := chunk[..|chunk| - 1];
    var b := chunk[|chunk| - 1];
    assert chunk == init + [b];
    if init == [] {
      RowStart(p, b);
    } else {
      RowAppended(p, init);
      RowExtend(p, init, b);
    }
  }

  /** The first byte of a line opens a row. */
  lemma RowStart(p: seq<byte>, b: byte)
    requires |p| % 8 == 0
    ensures Rendered(p + [b]) == Rendered(p) + Row(|p|, [b])
  {
    var cell := Hex2(b) + " ";
    assert HexRun([b]) == cell by {
      assert [b][..0] == [];
    }
    assert Row(|p|, [b]) == Label(|p|) + cell;
    assert Piece(|p|, b) == Label(|p|) + cell;
    RenderedSnoc(p, b);
  }

  /** A further byte of a line extends its row. */
  lemma RowExtend(p: seq<byte>, init: seq<byte>, b: byte)
    requires |p| % 8 == 0 && 1 <= |init| < 8
    requires Rendered(p + init) == Rendered(p) + Row(|p|, init)
    ensures Rendered(p + (init + [b])) == Rendered(p) + Row(|p|, init + [b])
  {
    var tail := Hex2(b) + " " + (if |init| == 7 then "\n" else "");
    assert Row(|p|, init + [b]) == Row(|p|, init) + tail by {
      RowSnoc(|p|, init, b);
    }
    RenderedInside(p, init, b);
    Regroup(Rendered(p + (init + [b])), Rendered(p + init), Rendered(p), Row(|p|, init), Row(|p|, init + [b]), tail);
  }

  lemma RenderedInside(p: seq<byte>, init: seq<byte>, b: byte)
    requires |p| % 8 == 0 && 1 <= |init| < 8
    ensures Rendered(p + (init + [b])) == Rendered(p + init) + (Hex2(b) + " " + (if |init| == 7 then "\n" else ""))
  {
    PieceInside(|p|, |init|, b);
    assert p + (init + [b]) == (p + init) + [b];
    RenderedSnoc(p + init, b);
  }

  lemma Regroup(x: string, y: string, r: string, row: string, row': string, tail: string)
    requires x == y + tail && y == r + row && row' == row + tail
    ensures x == r + row'
  {
  }

  /** Appending a byte to a short row adds its cell, and the newline if the row is now full. */
  lemma RowSnoc(offset: nat, init: seq<byte>, b: byte)
    requires |init| < 8
    ensures Row(offset, init + [b]) == Row(offset, init) + (Hex2(b) + " " + (if |init| == 7 then "\n" else ""))
  {
    var chunk := init + [b];
    assert chunk[..|chunk| - 1] == init;
    assert HexRun(chunk) == HexRun(init) + (Hex2(b) + " ");
  }

  /** A byte that does not open a line prints no label. */
  lemma PieceInside(m: nat, j: nat, b: byte)
    requires m % 8 == 0 && 1 <= j < 8
    ensures Piece(m + j, b) == Hex2(b) + " " + (if j == 7 then "\n" else "")
  {
    ModEight(m, j);
  }

  lemma ModEight(m: nat, j: nat)
    requires m % 8 == 0 && j < 8
    ensures (m + j) % 8 == j
  {
  }

  /** A whole dump is its rows of eight, the last one possibly short and without a newline. */
  lemma RenderedRows(p: seq<byte>, chunk: seq<byte>)
    requires |p| % 8 == 0 && |chunk| == 8
    ensures Rendered(p + chunk) == Rendered(p) + Label(|p|) + HexRun(chunk) + "\n"
  {
    RowAppended(p, chunk);
  }

  // ---------------------------------------------------------------------------------------
  // Counting labels and newlines

  function Count(s: string, c: char): nat
  {
    multiset(s)[c]
  }

  lemma NoNonDigit(s: string, c: char)
    requires forall i :: 0 <= i < |s| ==> IsDigitChar(s[i])
    requires !IsDigitChar(c)
    ensures Count(s, c) == 0
  {
  }

  /** Each piece holds a tab exactly when it opens a line and a newline exactly when it closes one. */
  lemma PieceCounts(i: nat, b: byte)
    ensures Count(Piece(i, b), '\t') == (if i % 8 == 0 then 1 else 0)
    ensures Count(Piece(i, b), '\n') == (if i % 8 == 7 then 1 else 0)
  {
    FormattedDigits(i, 16, 8);
    FormattedDigits(b as nat, 16, 2);
    NoNonDigit(Formatted(i, 16, 8), '\t');
    NoNonDigit(Formatted(i, 16, 8), '\n');
    NoNonDigit(Hex2(b), '\t');
    NoNonDigit(Hex2(b), '\n');
    var opener := if i % 8 == 0 then Label(i) else "";
    var nl: string := if i % 8 == 7 then "\n" else "";
    assert Piece(i, b) == opener + Hex2(b) + " " + nl;
    assert multiset(Piece(i, b)) == multiset(opener) + multiset(Hex2(b)) + multiset(" ") + multiset(nl);
    if i % 8 == 0 {
      assert multiset(opener) == multiset(Formatted(i, 16, 8)) + multiset("\t");
    }
  }

  /** n bytes print ceil(n/8) offset labels (one tab each) and floor(n/8) newlines. */
  lemma {:induction false} LineCounts(bs: seq<byte>)
    ensures Count(Rendered(bs), '\t') == (|bs| + 7) / 8
    ensures Count(Rendered(bs), '\n') == |bs| / 8
    decreases |bs|
  {
    if bs != [] {
      var n := |bs| - 1;
      LineCounts(bs[..n]);
      PieceCounts(n, bs[n]);
      CountStep(bs, '\t');
      CountStep(bs, '\n');
      DivEight(n);
    }
  }

  lemma CountStep(bs: seq<byte>, c: char)
    requires bs != []
    ensures var n := |bs| - 1;
            Count(Rendered(bs), c) == Count(Rendered(bs[..n]), c) + Count(Piece(n, bs[n]), c)
  {
    var n := |bs| - 1;
    assert multiset(Rendered(bs)) == multiset(Rendered(bs[..n])) + multiset(Piece(n, bs[n]));
  }

  lemma DivEight(n: nat)
    ensures (n + 1 + 7) / 8 == (n + 7) / 8 + (if n % 8 == 0 then 1 else 0)
    ensures (n + 1) / 8 == n / 8 + (if n % 8 == 7 then 1 else 0)
  {
  }

  /** Empty input prints nothing and finishes. */
  lemma EmptyInput()
    ensures Rendered([]) == ""
  {
  }

  /** Output ends with a newline exactly when the input is a non-empty multiple of eight bytes. */
  lemma EndsWithNewline(bs: seq<byte>)
    requires bs != []
    ensures Rendered(bs)[|Rendered(bs)| - 1] == '\n' <==> |bs| % 8 == 0
  {
    var n := |bs| - 1;
    assert bs == bs[..n] + [bs[n]];
    RenderedSnoc(bs[..n], bs[n]);
    PieceLast(n, bs[n]);
    LastOfAppend(Rendered(bs[..n]), Piece(n, bs[n]));
    LastIndexOfRow(n);
  }

  /** A piece ends in a newline exactly when it closes a line. */
  lemma PieceLast(i: nat, b: byte)
    ensures |Piece(i, b)| > 0
    ensures Piece(i, b)[|Piece(i, b)| - 1] == '\n' <==> i % 8 == 7
  {
    var opener := if i % 8 == 0 then Label(i) else "";
    var nl: string := if i % 8 == 7 then "\n" else "";
    assert Piece(i, b) == (opener + Hex2(b)) + " " + nl;
  }

  lemma LastOfAppend(a: string, p: string)
    requires |p| > 0
    ensures (a + p)[|a + p| - 1] == p[|p| - 1]
  {
  }

  lemma LastIndexOfRow(n: nat)
    ensures n % 8 == 7 <==> (n + 1) % 8 == 0
  {
  }
}

/** The controller's page-write protocol as bus traffic. Each
    `Wire.beginTransmission ... endTransmission` group is one `Transaction`,
    the sequence of bytes written inside it. A page write is one addressing
    transaction followed by the page's bytes in 16-byte data transactions. */
module Transport {
  import opened Arduino

  /** Display geometry of `DisplayManager`: 128 x 64 pixels, 8 pages of 8 rows. */
  const Width := 128
  const Height := 64
  const Pages := Height / 8

  /** Bytes of pixel data per data transaction. */
  const ChunkSize := 16

  /** Leading control bytes: the rest of the transaction is commands, or data. */
  const CommandMode: Byte := 0x00
  const DataMode: Byte := 0x40

  type Transaction = seq<Byte>

  /** Selects a page and resets the column address to 0: `0xB0 | page`, then
      the low and the high column nibble. */
  function PageCommand(page: Byte): Transaction
  {
    [CommandMode, BitOr(0xB0, page), 0x00, 0x10]
  }

  /** For the pages that exist, `0xB0 | page` is `0xB0 + page`. */
  lemma PageCommandSelectsPage(page: Byte)
    requires page < Pages
    ensures PageCommand(page) == [0x00, 0xB0 + page, 0x00, 0x10]
  {
    var p := page as bv8;
    assert p < 8;
    assert (0xB0 as bv8) | p == 0xB0 + p;
  }

  /** The data transactions sending `buf[i..]`, 16 bytes each behind the
      data-mode byte. */
  function DataFrames(buf: seq<Byte>, i: nat): (frames: seq<Transaction>)
    requires |buf| == Width && i <= Width && i % ChunkSize == 0
    ensures |frames| == (Width - i) / ChunkSize
    ensures forall k :: 0 <= k < |frames| ==> |frames[k]| == ChunkSize + 1 && frames[k][0] == DataMode
    decreases Width - i
  {
    if i == Width then []
    else [[DataMode] + buf[i..i + ChunkSize]] + DataFrames(buf, i + ChunkSize)
  }

  /** One page write: the addressing transaction, then the whole buffer.
      The two phases are never merged into one transaction. */
  function PageWrite(page: Byte, buf: seq<Byte>): (w: seq<Transaction>)
    requires |buf| == Width
    ensures |w| == 9
  {
    [PageCommand(page)] + DataFrames(buf, 0)
  }

  /** The bytes carried by a run of transactions, each with its leading
      control byte removed. */
  function Payload(frames: seq<Transaction>): seq<Byte>
    requires forall k :: 0 <= k < |frames| ==> |frames[k]| >= 1
  {
    if |frames| == 0 then [] else frames[0][1..] + Payload(frames[1..])
  }

  /** The shape of a page write as the controller receives it. */
  predicate IsPageWrite(w: seq<Transaction>)
  {
    && |w| == 1 + Width / ChunkSize
    && |w[0]| == 4 && w[0][0] == CommandMode && w[0][2] == 0x00 && w[0][3] == 0x10
    && 0xB0 <= w[0][1] < 0xB0 + Pages
    && forall k :: 1 <= k < |w| ==> |w[k]| == ChunkSize + 1 && w[k][0] == DataMode
  }

  /** The page a well-formed page write selects. */
  function PageOf(w: seq<Transaction>): int
    requires IsPageWrite(w)
  {
    w[0][1] - 0xB0
  }

  /** The bytes a well-formed page write sends. */
  function PageData(w: seq<Transaction>): seq<Byte>
    requires IsPageWrite(w)
  {
    Payload(w[1..])
  }

  lemma {:induction false} DataFramesRoundTrip(buf: seq<Byte>, i: nat)
    requires |buf| == Width && i <= Width && i % ChunkSize == 0
    ensures Payload(DataFrames(buf, i)) == buf[i..]
    decreases Width - i
  {
    if i < Width {
      var frames := DataFrames(buf, i);
      DataFramesRoundTrip(buf, i + ChunkSize);
      assert frames[1..] == DataFrames(buf, i + ChunkSize);
      assert frames[0][1..] == buf[i..i + ChunkSize];
      assert buf[i..] == buf[i..i + ChunkSize] + buf[i + ChunkSize..];
    }
  }

  /** Framing round trip: a page write of a valid page is well formed, and
      reading it back gives the page and the whole 128-byte buffer. */
  lemma PageWriteRoundTrip(page: Byte, buf: seq<Byte>)
    requires page < Pages && |buf| == Width
    ensures IsPageWrite(PageWrite(page, buf))
    ensures PageOf(PageWrite(page, buf)) == page
    ensures PageData(PageWrite(page, buf)) == buf
  {
    var w := PageWrite(page, buf);
    PageCommandSelectsPage(page);
    assert w[1..] == DataFrames(buf, 0);
    DataFramesRoundTrip(buf, 0);
  }
}

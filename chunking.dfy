/**
 * How micropython.js cuts what it sends into pieces: commands into 128-character
 * writes (`write_and_read_until`) and uploads into 48-byte `w(bytes([...]))`
 * lines (`fs_put`, `fs_save`), with the percentage reported after each line.
 */
module Chunking {
  import opened JsText
  import opened Decoders

  /** `write_and_read_until` writes at most this many characters at a time. */
  const CommandChunkSize: nat := 128
  /** `fs_put` and `fs_save` encode at most this many bytes per line. */
  const UploadChunkSize: nat := 48

  /** The pieces `for (i = 0; i < s.length; i += n) s.slice(i, i + n)` visits. */
  function Chunks<T>(s: seq<T>, n: nat): (cs: seq<seq<T>>)
    requires n > 0
    ensures forall k :: 0 <= k < |cs| ==> 0 < |cs[k]| <= n
    decreases |s|
  {
    if |s| == 0 then [] else if |s| <= n then [s] else [s[..n]] + Chunks(s[n..], n)
  }

  /** There are `ceil(|s| / n)` pieces; none for an empty sequence. */
  lemma {:induction false} ChunksCount<T>(s: seq<T>, n: nat)
    requires n > 0
    ensures |Chunks(s, n)| == (|s| + n - 1) / n
    decreases |s|
  {
    if |s| > n {
      ChunksCount(s[n..], n);
      DivStep(|s| - n + n - 1, n);
    } else if |s| > 0 {
      DivUnique(|s| + n - 1, n, 1, |s| - 1);
    } else {
      DivUnique(n - 1, n, 0, n - 1);
    }
  }

  // Integer division facts, proved without the solver's non-linear search.

  lemma MulSign(k: int, n: int)
    requires n > 0
    ensures k >= 0 ==> k * n >= 0
    ensures k >= 1 ==> k * n >= n
    ensures k <= -1 ==> k * n <= -n
  {
  }

  lemma DivUnique(x: int, n: int, q: int, r: int)
    requires n > 0 && 0 <= r < n && x == q * n + r
    ensures x / n == q && x % n == r
  {
    var q' := x / n;
    MulSign(q - q', n);
    assert (q - q') * n == q * n - q' * n;
  }

  lemma ModOfSmall(x: nat, n: nat)
    requires n > 0
    ensures x < n ==> x % n == x
  {
    if x < n {
      DivUnique(x, n, 0, x);
    }
  }

  lemma DivStep(x: nat, n: nat)
    requires n > 0
    ensures (x + n) / n == x / n + 1
    ensures (x + n) % n == x % n
  {
    DivUnique(x + n, n, x / n + 1, x % n);
  }

  lemma DivMonotone(a: nat, b: nat, d: nat)
    requires a <= b && d > 0
    ensures a / d <= b / d
  {
    var qa, qb := a / d, b / d;
    MulSign(qa - qb - 1, d);
    assert (qa - qb - 1) * d == qa * d - qb * d - d;
  }

  /** Every piece but the last is full. */
  lemma {:induction false} ChunksFull<T>(s: seq<T>, n: nat)
    requires n > 0
    ensures forall k :: 0 <= k < |Chunks(s, n)| - 1 ==> |Chunks(s, n)[k]| == n
    decreases |s|
  {
    if |s| > n {
      ChunksFull(s[n..], n);
      assert Chunks(s, n) == [s[..n]] + Chunks(s[n..], n);
    }
  }

  /** The pieces put back together are the sequence. */
  lemma {:induction false} ChunksConcat<T>(s: seq<T>, n: nat)
    requires n > 0
    ensures Concat(Chunks(s, n)) == s
    decreases |s|
  {
    if |s| > n {
      ChunksConcat(s[n..], n);
      var cs := Chunks(s, n);
      assert cs[1..] == Chunks(s[n..], n);
      assert s == s[..n] + s[n..];
    } else if |s| > 0 {
      assert Concat(Chunks(s, n)) == s + Concat([]);
    }
  }

  /** Adding one more piece after a whole number of full pieces. */
  lemma {:induction false} ChunksSnoc<T>(p: seq<T>, q: seq<T>, n: nat)
    requires n > 0 && |p| % n == 0 && 0 < |q| <= n
    ensures Chunks(p + q, n) == Chunks(p, n) + [q]
    decreases |p|
  {
    if |p| == 0 {
      assert p + q == q;
    } else {
      var r := p[n..];
      assert |p| >= n by {
        ModOfSmall(|p|, n);
      }
      assert |r| % n == 0 by {
        DivStep(|r|, n);
      }
      assert p + q == p[..n] + (r + q);
      ChunksSnoc(r, q, n);
      ChunksCons(p[..n], r + q, n);
      ChunksCons(p[..n], r, n);
    }
  }

  /** A full piece in front adds one piece in front. */
  lemma ChunksCons<T>(a: seq<T>, b: seq<T>, n: nat)
    requires n > 0 && |a| == n
    ensures Chunks(a + b, n) == [a] + Chunks(b, n)
  {
    if b == [] {
      assert a + b == a;
    } else {
      assert (a + b)[..n] == a;
      assert (a + b)[n..] == b;
    }
  }

  /** One step of the slicing loop: the slice at offset `i` extends the pieces of the
      first `i` elements. */
  lemma ChunksStep<T>(s: seq<T>, i: nat, n: nat)
    requires n > 0 && i % n == 0 && i < |s|
    ensures Chunks(s[..Min(i + n, |s|)], n) == Chunks(s[..i], n) + [Slice(s, i, i + n)]
  {
    var q := Slice(s, i, i + n);
    assert q == s[i..Min(i + n, |s|)];
    assert s[..Min(i + n, |s|)] == s[..i] + q;
    ChunksSnoc(s[..i], q, n);
  }

  function Min(a: int, b: int): int
  {
    if a < b then a else b
  }

  // ---------------------------------------------------------------------------
  // upload lines

  /** The exec that opens the destination file and binds `w` to its `write`. */
  function OpenLine(dest: string): string
  {
    "f=open('" + dest + "','wb')\nw=f.write"
  }

  /** A command of at most 128 characters, a control character for one, is
      written in one piece. */
  lemma ControlChunk(c: string)
    requires 0 < |c| <= CommandChunkSize
    ensures Chunks(c, CommandChunkSize) == [c]
  {
  }

  /** The exec that closes the destination file. */
  const CloseLine: string := "f.close()\ndel f\ndel w\n"

  const LinePrefix: string := "w(bytes(["
  const LineSuffix: string := "]))"

  /** `w(bytes([${slice}]))`: a `Uint8Array` renders as its decimals joined by commas. */
  function ChunkLine(slice: seq<Byte>): string
  {
    LinePrefix + Join(Decimals(slice), ",") + LineSuffix
  }

  function ChunkLines(cs: seq<seq<Byte>>): (lines: seq<string>)
    ensures |lines| == |cs|
    ensures forall k :: 0 <= k < |cs| ==> lines[k] == ChunkLine(cs[k])
  {
    seq(|cs|, k requires 0 <= k < |cs| => ChunkLine(cs[k]))
  }

  /** Every exec an upload issues, in order: open, one line per 48-byte slice,
      close; the slice lines write the content back exactly. */
  function UploadLines(dest: string, content: seq<Byte>): (lines: seq<string>)
    ensures |lines| == 2 + (|content| + UploadChunkSize - 1) / UploadChunkSize
    ensures lines[0] == OpenLine(dest) && lines[|lines| - 1] == CloseLine
    ensures DecodeUpload(lines) == Some(content)
  {
    var cs := Chunks(content, UploadChunkSize);
    var lines := [OpenLine(dest)] + ChunkLines(cs) + [CloseLine];
    ChunksCount(content, UploadChunkSize);
    assert lines[1..|lines| - 1] == ChunkLines(cs);
    DecodeChunkLines(cs);
    ChunksConcat(content, UploadChunkSize);
    lines
  }

  /** The bytes a Python `bytes([...])` literal denotes, or None if the numbers are
      not all bytes. */
  function ToBytes(ns: seq<JsNumber>): (r: Option<seq<Byte>>)
    ensures r.Some? ==> |r.value| == |ns|
  {
    if ns == [] then Some([])
    else if ns[0].Num? && ns[0].value < 256 then
      match ToBytes(ns[1..])
      case Some(rest) => Some([ns[0].value as Byte] + rest)
      case None => None
    else None
  }

  /** How the device reads one `w(bytes([...]))` line: the bytes written, or None
      for a line of another shape. */
  function DecodeChunkLine(line: string): Option<seq<Byte>>
  {
    var p, q := |LinePrefix|, |LineSuffix|;
    if |line| >= p + q && line[..p] == LinePrefix && line[|line| - q..] == LineSuffix then
      var inner := line[p..|line| - q];
      if inner == "" then Some([]) else ToBytes(Numbers(Split(inner, ",")))
    else None
  }

  lemma {:induction false} ToBytesOfBytes(b: seq<Byte>)
    ensures ToBytes(AsNumbers(b)) == Some(b)
    decreases |b|
  {
    if b != [] {
      var ns := AsNumbers(b);
      assert ns[0] == Num(b[0]);
      assert ns[1..] == AsNumbers(b[1..]);
      ToBytesOfBytes(b[1..]);
      assert b == [b[0]] + b[1..];
    }
  }

  /** Each upload line writes exactly the slice it was made from. */
  lemma ChunkLineRoundTrip(b: seq<Byte>)
    ensures DecodeChunkLine(ChunkLine(b)) == Some(b)
  {
    var line := ChunkLine(b);
    var inner := Join(Decimals(b), ",");
    assert line[..|LinePrefix|] == LinePrefix;
    assert line[|line| - |LineSuffix|..] == LineSuffix;
    assert line[|LinePrefix|..|line| - |LineSuffix|] == inner;
    if b != [] {
      assert inner != "" by {
        if |b| > 1 {
          assert inner == ShowNat(b[0]) + "," + Join(Decimals(b)[1..], ",");
        }
      }
      DecimalsRoundTrip(b);
      ToBytesOfBytes(b);
    }
  }

  /** What a run of upload lines writes, in order. */
  function DecodeLines(lines: seq<string>): Option<seq<Byte>>
  {
    if lines == [] then Some([])
    else
      match (DecodeChunkLine(lines[0]), DecodeLines(lines[1..]))
      case (Some(a), Some(b)) => Some(a + b)
      case _ => None
  }

  /** What the device ends up writing for an upload: everything between the
      open and the close exec. */
  function DecodeUpload(lines: seq<string>): Option<seq<Byte>>
  {
    if |lines| < 2 then None else DecodeLines(lines[1..|lines| - 1])
  }

  lemma {:induction false} DecodeChunkLines(cs: seq<seq<Byte>>)
    ensures DecodeLines(ChunkLines(cs)) == Some(Concat(cs))
    decreases |cs|
  {
    if cs != [] {
      ChunkLineRoundTrip(cs[0]);
      assert ChunkLines(cs)[1..] == ChunkLines(cs[1..]);
      DecodeChunkLines(cs[1..]);
    }
  }

  /** An empty payload still opens and closes the file, with no chunk exec between. */
  lemma UploadEmpty(dest: string)
    ensures UploadLines(dest, []) == [OpenLine(dest), CloseLine]
  {
  }

  // ---------------------------------------------------------------------------
  // progress

  /** `parseInt((i / len) * 100)`, taken as integer division. */
  function ProgressPercent(i: nat, len: nat): nat
    requires len > 0
  {
    (100 * i) / len
  }

  /** The percentages reported, one after each chunk exec, for a payload of `len` bytes. */
  function ProgressValues(len: nat): (ps: seq<nat>)
    ensures len == 0 ==> ps == []
  {
    if len == 0 then []
    else
      var count := (len + UploadChunkSize - 1) / UploadChunkSize;
      seq(count, k requires 0 <= k < count => ProgressPercent(UploadChunkSize * k, len))
  }

  lemma DivBelow(a: nat, c: nat, d: nat)
    requires d > 0 && a < c * d
    ensures a / d < c
  {
  }

  /** One report per chunk, starting at 0, never reaching 100, never decreasing. */
  lemma ProgressBounds(len: nat)
    ensures |ProgressValues(len)| == (len + UploadChunkSize - 1) / UploadChunkSize
    ensures len > 0 ==> ProgressValues(len)[0] == 0
    ensures forall k :: 0 <= k < |ProgressValues(len)| ==> ProgressValues(len)[k] < 100
    ensures forall j, k :: 0 <= j <= k < |ProgressValues(len)| ==> ProgressValues(len)[j] <= ProgressValues(len)[k]
  {
    var ps := ProgressValues(len);
    if len > 0 {
      var count := (len + UploadChunkSize - 1) / UploadChunkSize;
      forall k | 0 <= k < count ensures ps[k] < 100 {
        assert UploadChunkSize * k < len;
        DivBelow(100 * (UploadChunkSize * k), 100, len);
      }
      forall j, k | 0 <= j <= k < count ensures ps[j] <= ps[k] {
        DivMonotone(100 * (UploadChunkSize * j), 100 * (UploadChunkSize * k), len);
      }
    }
  }

  /** The text handed to the data consumer: the percentage followed by `%`. */
  function ProgressNote(i: nat, len: nat): string
    requires len > 0
  {
    ShowNat(ProgressPercent(i, len)) + "%"
  }

  /** A progress note is the percentage in decimal followed by `%`; reading the
      digits back gives the whole part of `100 * i / len`, which stays below 100
      until the end of the payload. */
  lemma ProgressNoteReads(i: nat, len: nat)
    requires len > 0
    ensures var note := ProgressNote(i, len);
      |note| >= 2 && note[|note| - 1] == '%' &&
      ToNumber(note[..|note| - 1]) == Num(ProgressPercent(i, len))
    ensures ProgressPercent(i, len) * len <= 100 * i < (ProgressPercent(i, len) + 1) * len
    ensures i < len <==> ProgressPercent(i, len) < 100
  {
    var note := ProgressNote(i, len);
    assert note[..|note| - 1] == ShowNat(ProgressPercent(i, len));
    ShowNatRoundTrip(ProgressPercent(i, len));
    PercentBounds(i, len);
  }

  lemma PercentBounds(i: nat, len: nat)
    requires len > 0
    ensures ProgressPercent(i, len) * len <= 100 * i < (ProgressPercent(i, len) + 1) * len
    ensures i < len <==> ProgressPercent(i, len) < 100
  {
    var p, r := (100 * i) / len, (100 * i) % len;
    assert 100 * i == p * len + r && 0 <= r < len;
    assert (p + 1) * len == p * len + len;
    MulSign(p - 100, len);
    assert (p - 100) * len == p * len - 100 * len;
    assert 100 * i - 100 * len == 100 * (i - len);
  }

  /** The texts an upload hands to its consumer, one after each slice. */
  function ProgressNotes(len: nat): (ns: seq<string>)
    ensures |ns| == (len + UploadChunkSize - 1) / UploadChunkSize
    ensures |ns| > 0 ==> len > 0
    ensures forall j :: 0 <= j < |ns| ==> ns[j] == ProgressNote(UploadChunkSize * j, len)
  {
    if len == 0 then []
    else
      var count := (len + UploadChunkSize - 1) / UploadChunkSize;
      seq(count, j requires 0 <= j < count => ProgressNote(UploadChunkSize * j, len))
  }
}

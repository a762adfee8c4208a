/**
 * The pure decoders of micropython.js: how the text the device sends back is
 * turned into the values the board methods return.
 */
module Decoders {
  import opened JsText
  import opened Protocol

  /** `extract(out)`: the reply without its first two and its last three characters
      (`out.slice(2, -3)`), empty when nothing is left between them. */
  function Extract(out: string): (m: string)
    ensures |out| > 5 ==> m == out[2..|out| - 3]
    ensures |out| <= 5 ==> m == []
  {
    Slice(out, 2, -3)
  }

  /** The output of a successful raw execution comes back unframed. */
  lemma ExtractReply(m: string)
    ensures Extract(Reply(m)) == m
  {
    if |m| == 0 {
      assert |Reply(m)| == 5;
    }
  }

  /** `extractBytes(out, cut_before, cut_after)`: the text between the cuts, split at
      commas, each piece read with `Number`. */
  function ExtractBytes(out: string, cutBefore: int, cutAfter: int): (r: seq<JsNumber>)
    ensures |r| >= 1
  {
    Numbers(Split(Slice(out, cutBefore, -cutAfter), ","))
  }

  function Numbers(parts: seq<string>): (r: seq<JsNumber>)
    ensures |r| == |parts|
    ensures forall k :: 0 <= k < |parts| ==> r[k] == ToNumber(parts[k])
  {
    seq(|parts|, k requires 0 <= k < |parts| => ToNumber(parts[k]))
  }

  /** The decimal renderings of a list of bytes. */
  function Decimals(b: seq<Byte>): (r: seq<string>)
    ensures |r| == |b|
    ensures forall k :: 0 <= k < |b| ==> r[k] == ShowNat(b[k])
  {
    seq(|b|, k requires 0 <= k < |b| => ShowNat(b[k]))
  }

  /** A byte list as `Number` values. */
  function AsNumbers(b: seq<Byte>): (r: seq<JsNumber>)
    ensures |r| == |b|
    ensures forall k :: 0 <= k < |b| ==> r[k] == Num(b[k])
  {
    seq(|b|, k requires 0 <= k < |b| => Num(b[k]))
  }

  /** Split at a one-character separator undoes a join of decimals, and `Number`
      reads each one back. */
  lemma DecimalsRoundTrip(b: seq<Byte>)
    requires |b| > 0
    ensures Numbers(Split(Join(Decimals(b), ","), ",")) == AsNumbers(b)
  {
    var ds := Decimals(b);
    forall k | 0 <= k < |ds| ensures ',' !in ds[k] {
      ShowNatHasNo(b[k], ',');
    }
    SplitJoin(ds, ',');
    forall k | 0 <= k < |b| ensures ToNumber(ds[k]) == Num(b[k]) {
      ShowNatRoundTrip(b[k]);
    }
  }

  /** `fs_cat_binary`'s remote snippet prints every byte in decimal followed by a
      comma; cutting `OK` and `,\x04\x04>` and splitting gives the bytes back. */
  lemma ExtractBytesRoundTrip(b: seq<Byte>)
    requires |b| > 0
    ensures ExtractBytes(Reply(Join(Decimals(b), ",") + ","), 2, 4) == AsNumbers(b)
  {
    var body := Join(Decimals(b), ",");
    var out := Reply(body + ",");
    assert |body| > 0 by {
      if |b| > 1 {
        assert body == ShowNat(b[0]) + "," + Join(Decimals(b)[1..], ",");
      }
    }
    assert out == "OK" + body + ",\U{4}\U{4}>";
    assert Slice(out, 2, -4) == body;
    DecimalsRoundTrip(b);
  }

  /** An empty file prints nothing, and the empty text reads as the single number 0:
      `fs_cat_binary` of an empty file returns `[0]`, not `[]`. */
  lemma ExtractBytesEmptyFile()
    ensures ExtractBytes(Reply(""), 2, 4) == [Num(0)]
  {
    assert Slice(Reply(""), 2, -4) == "";
    assert Split("", ",") == [""];
  }

  // ---------------------------------------------------------------------------
  // line breaks

  /** `fixLineBreak`: every `\r\n` becomes `\n`, scanning from the left. */
  function FixLineBreak(s: string): (r: string)
    ensures |r| <= |s|
    decreases |s|
  {
    if |s| >= 2 && s[0] == '\r' && s[1] == '\n' then "\n" + FixLineBreak(s[2..])
    else if s == [] then []
    else [s[0]] + FixLineBreak(s[1..])
  }

  /** A text without carriage returns is left alone. */
  lemma {:induction false} FixLineBreakNoCR(s: string)
    requires '\r' !in s
    ensures FixLineBreak(s) == s
    decreases |s|
  {
    if s != [] {
      assert '\r' !in s[1..];
      FixLineBreakNoCR(s[1..]);
    }
  }

  /** `fixLineBreak` is JavaScript's global replace: split at every `\r\n` found
      from the left, join with `\n`. */
  lemma {:induction false} FixLineBreakIsReplaceAll(s: string)
    ensures FixLineBreak(s) == Join(Split(s, "\r\n"), "\n")
    decreases |s|
  {
    if |s| >= 2 && s[0] == '\r' && s[1] == '\n' {
      FixLineBreakIsReplaceAll(s[2..]);
      ReplaceAllAtBreak(s);
    } else if s != [] {
      FixLineBreakIsReplaceAll(s[1..]);
      ReplaceAllAtOther(s);
    }
  }

  /** A leading `\r\n` is an empty first piece. */
  lemma ReplaceAllAtBreak(s: string)
    requires |s| >= 2 && s[0] == '\r' && s[1] == '\n'
    ensures Join(Split(s, "\r\n"), "\n") == "\n" + Join(Split(s[2..], "\r\n"), "\n")
  {
    OccursAtFrontPair(s, "\r\n");
    JoinSplitFront(s, "\r\n", "\n");
  }

  /** Any other first character joins the first piece. */
  lemma ReplaceAllAtOther(s: string)
    requires s != [] && !(|s| >= 2 && s[0] == '\r' && s[1] == '\n')
    ensures Join(Split(s, "\r\n"), "\n") == [s[0]] + Join(Split(s[1..], "\r\n"), "\n")
  {
    OccursAtFrontPair(s, "\r\n");
    JoinSplitOther(s, "\r\n", "\n");
  }

  /** Each replacement shortens the text by exactly one character; the number of
      replacements is the number of `\r\n` separators `split` finds. */
  lemma FixLineBreakLength(s: string)
    ensures |FixLineBreak(s)| == |s| - (|Split(s, "\r\n")| - 1)
  {
    var parts := Split(s, "\r\n");
    FixLineBreakIsReplaceAll(s);
    JoinSplit(s, "\r\n");
  }

  /** Only one pass is made: `\r\r\n` keeps a `\r\n`. */
  lemma FixLineBreakSinglePass()
    ensures FixLineBreak("\r\r\n") == "\r\n"
  {
    assert FixLineBreak("\r\n") == "\n";
  }

  // ---------------------------------------------------------------------------
  // fs_ls / fs_cat / fs_exists

  /** The text `fs_ls` hands to `JSON.parse`: the unframed reply with every `'`
      turned into `"`. */
  function ListingText(out: string): (r: string)
    ensures |r| == |Extract(out)|
    ensures '\'' !in r
  {
    ReplaceChar(Extract(out), '\'', '"')
  }

  /** For a reply whose printed list has no quote inside a name, only the quoting
      of the list literal changes. */
  lemma ListingOfReply(m: string)
    ensures ListingText(Reply(m)) == ReplaceChar(m, '\'', '"')
    ensures '\'' !in m ==> ListingText(Reply(m)) == m
  {
    ExtractReply(m);
  }

  /** The text `fs_ils` hands to `JSON.parse`: the listing text split at every `OK`;
      `JSON.parse` reads an array as its `toString`, the pieces joined by commas. */
  function IlsText(out: string): (r: string)
    ensures IndexOf(ListingText(out), "OK") == -1 ==> r == ListingText(out)
  {
    Join(Split(ListingText(out), "OK"), ",")
  }

  /** The split changes nothing unless a name holds `OK`. */
  lemma IlsTextOfReply(m: string)
    requires '\'' !in m && IndexOf(m, "OK") == -1
    ensures IlsText(Reply(m)) == m
  {
    ListingOfReply(m);
  }

  /** Otherwise every `OK` becomes a comma: a file named `OK` between two others
      turns the list `before OK after` into `before , after`. */
  lemma IlsTextMangles(before: string, after: string)
    requires '\'' !in before && '\'' !in after && NoOk(before) && NoOk(after)
    ensures IlsText(Reply(before + "OK" + after)) == before + "," + after
  {
    var m := before + "OK" + after;
    assert '\'' !in m;
    IlsTextQuoteFree(m);
    SplitAtFirst(before, after);
    NoOkIndex(after);
    SplitNone(after, "OK");
    JoinCons(before, [after], ",");
  }

  /** Without single quotes in the printed list, `fs_ils` splits the list itself. */
  lemma IlsTextQuoteFree(m: string)
    requires '\'' !in m
    ensures IlsText(Reply(m)) == Join(Split(m, "OK"), ",")
  {
    ListingOfReply(m);
  }

  // ---------------------------------------------------------------------------
  // the `OK` marker

  /** `OK` starts at position `i` of `t`. */
  predicate OkAt(t: string, i: int)
  {
    0 <= i && i + 1 < |t| && t[i] == 'O' && t[i + 1] == 'K'
  }

  /** `t` holds no `OK`. */
  predicate NoOk(t: string)
  {
    forall i :: 0 <= i < |t| ==> !OkAt(t, i)
  }

  lemma OkOccurs(t: string)
    ensures forall i :: OccursAt(t, "OK", i) <==> OkAt(t, i)
  {
    forall i
      ensures OccursAt(t, "OK", i) <==> OkAt(t, i)
    {
      if 0 <= i && i + 2 <= |t| {
        assert t[i..i + 2] == [t[i], t[i + 1]];
      }
    }
  }

  /** `t.indexOf('OK') === -1` says that `t` holds no `OK`. */
  lemma NoOkIndex(t: string)
    ensures IndexOf(t, "OK") == -1 <==> NoOk(t)
  {
    OkOccurs(t);
    IndexOfSpec(t, "OK");
  }

  /** The first `OK` of `x + "OK" + rest` is the one after `x` when `x` has none. */
  lemma SplitAtFirst(x: string, rest: string)
    requires NoOk(x)
    ensures Split(x + "OK" + rest, "OK") == [x] + Split(rest, "OK")
  {
    var s := x + "OK" + rest;
    OkOccurs(s);
    forall i | 0 <= i < |x|
      ensures !OkAt(s, i)
    {
      assert s[i] == x[i];
      if i + 1 < |x| {
        assert s[i + 1] == x[i + 1];
        assert !OkAt(x, i);
      } else {
        assert s[i + 1] == 'O';
      }
    }
    assert OkAt(s, |x|);
    IndexOfAfter(s, "OK", |x|);
    SplitAt(s, "OK", |x|);
    assert s[..|x|] == x && s[|x| + 2..] == rest;
  }


  /** The text `fs_cat` returns: the unframed reply with its line breaks fixed. */
  function CatText(out: string): (r: string)
    ensures |r| <= |Extract(out)|
  {
    FixLineBreak(Extract(out))
  }

  lemma CatOfReply(m: string)
    ensures CatText(Reply(m)) == FixLineBreak(m)
    ensures '\r' !in m ==> CatText(Reply(m)) == m
  {
    ExtractReply(m);
    if '\r' !in m {
      FixLineBreakNoCR(m);
    }
  }

  /** `fs_exists`: the third character of the raw reply is `1`. */
  function ExistsFlag(out: string): (r: bool)
    ensures r ==> |out| > 2
  {
    |out| > 2 && out[2] == '1'
  }

  /** The flag is the first character the remote snippet printed. */
  lemma ExistsOfReply(m: string)
    ensures ExistsFlag(Reply(m)) <==> (|m| > 0 && m[0] == '1')
    ensures ExistsFlag(Reply("1\r\n")) && !ExistsFlag(Reply("0\r\n"))
  {
    assert Reply(m) == "OK" + m + ReplyTail;
    if |m| > 0 {
      assert Reply(m)[2] == m[0];
    } else {
      assert Reply(m)[2] == '\U{4}';
    }
    assert Reply("1\r\n")[2] == '1';
    assert Reply("0\r\n")[2] == '0';
  }
}

/**
 * The handful of JavaScript string and array primitives the client is built on
 * (`slice`, `indexOf`, `split`, `join`, a global one-character `replace`, `Number`
 * and the decimal rendering of a number), stated over sequences so that
 * `string` (= seq<char>) and byte lists share them.
 */
module JsText {

  datatype Option<T> = None | Some(value: T)

  /** An element of a `Uint8Array` / `Buffer`. */
  type Byte = b: int | 0 <= b < 256

  /** The elements of a list of lists, one after the other. */
  function Concat<T>(parts: seq<seq<T>>): seq<T>
  {
    if parts == [] then [] else parts[0] + Concat(parts[1..])
  }

  lemma AppendAssoc<T>(a: seq<T>, b: seq<T>, c: seq<T>)
    ensures a + b + c == a + (b + c)
  {
  }

  /** An accumulator that tracks `whole == base + acc` keeps doing so when both
      grow by the same `x`. */
  lemma AppendTracks<T>(before: seq<T>, after: seq<T>, base: seq<T>, acc: seq<T>, x: seq<T>)
    requires before == base + acc && after == before + x
    ensures after == base + (acc + x)
  {
  }

  lemma TakeFull<T>(s: seq<T>)
    ensures s[..|s|] == s
  {
  }

  lemma TakeSnoc<T>(s: seq<T>, k: nat)
    requires 0 < k <= |s|
    ensures s[..k] == s[..k - 1] + [s[k - 1]]
  {
  }

  lemma {:induction false} ConcatAppend<T>(a: seq<seq<T>>, b: seq<seq<T>>)
    ensures Concat(a + b) == Concat(a) + Concat(b)
    decreases |a|
  {
    if a == [] {
      assert a + b == b;
    } else {
      assert (a + b)[1..] == a[1..] + b;
      ConcatAppend(a[1..], b);
    }
  }

  // ---------------------------------------------------------------------------
  // slice

  /** The position `slice` uses for an argument: negative values count from the end. */
  function SliceIndex(len: nat, x: int): (r: nat)
    ensures r <= len
  {
    if x < 0 then (if len + x >= 0 then len + x else 0)
    else if x <= len then x else len
  }

  /** `s.slice(start, end)`: empty whenever the normalised end is not after the start. */
  function Slice<T>(s: seq<T>, start: int, end: int): (r: seq<T>)
    ensures |r| <= |s|
    ensures 0 <= start <= end <= |s| ==> r == s[start..end]
    ensures 0 <= start && end < 0 && start <= |s| + end ==> r == s[start..|s| + end]
    ensures SliceIndex(|s|, end) <= SliceIndex(|s|, start) ==> r == []
  {
    var from, to := SliceIndex(|s|, start), SliceIndex(|s|, end);
    if from < to then s[from..to] else []
  }

  // ---------------------------------------------------------------------------
  // indexOf

  /** `needle` occurs in `s` starting at position `i`. */
  predicate OccursAt<T(==)>(s: seq<T>, needle: seq<T>, i: int)
  {
    0 <= i && i + |needle| <= |s| && s[i..i + |needle|] == needle
  }

  /** A two-element needle occurs at the front exactly when the first two
      elements are its two. */
  lemma OccursAtFrontPair<T>(s: seq<T>, needle: seq<T>)
    requires |needle| == 2
    ensures OccursAt(s, needle, 0) <==> |s| >= 2 && s[0] == needle[0] && s[1] == needle[1]
  {
    if |s| >= 2 && s[0] == needle[0] && s[1] == needle[1] {
      assert s[0..2] == needle;
    }
  }

  /** `s.indexOf(needle)`: the first position where `needle` occurs, or -1. */
  function IndexOf<T(==)>(s: seq<T>, needle: seq<T>): (r: int)
    ensures -1 <= r <= |s|
    ensures r >= 0 ==> r + |needle| <= |s|
    decreases |s|
  {
    if OccursAt(s, needle, 0) then 0
    else if |s| == 0 then -1
    else
      var k := IndexOf(s[1..], needle);
      if k == -1 then -1 else k + 1
  }

  /** `indexOf` finds the first occurrence, and -1 means there is none. */
  lemma {:induction false} IndexOfSpec<T>(s: seq<T>, needle: seq<T>)
    ensures IndexOf(s, needle) == -1 ==> forall i :: 0 <= i <= |s| ==> !OccursAt(s, needle, i)
    ensures IndexOf(s, needle) >= 0 ==> OccursAt(s, needle, IndexOf(s, needle))
    ensures forall i :: 0 <= i < IndexOf(s, needle) ==> !OccursAt(s, needle, i)
    decreases |s|
  {
    if !OccursAt(s, needle, 0) && |s| > 0 {
      IndexOfSpec(s[1..], needle);
      ShiftOccurs(s, needle);
    }
  }

  /** An occurrence in `s` after position 0 is an occurrence in `s[1..]` one position earlier. */
  lemma ShiftOccurs<T>(s: seq<T>, needle: seq<T>)
    requires |s| > 0
    ensures forall j :: 1 <= j ==> (OccursAt(s, needle, j) <==> OccursAt(s[1..], needle, j - 1))
    ensures forall i :: 0 <= i ==> (OccursAt(s[1..], needle, i) <==> OccursAt(s, needle, i + 1))
  {
    forall j | 1 <= j
      ensures OccursAt(s, needle, j) <==> OccursAt(s[1..], needle, j - 1)
    {
      if j + |needle| <= |s| {
        assert s[1..][j - 1..j - 1 + |needle|] == s[j..j + |needle|];
      }
    }
  }

  /** `indexOf` of `needle` in a text that starts with `p + needle` is `|p|` when no
      occurrence starts inside `p`. */
  lemma IndexOfAfter<T>(s: seq<T>, needle: seq<T>, p: nat)
    requires OccursAt(s, needle, p)
    requires forall i :: 0 <= i < p ==> !OccursAt(s, needle, i)
    ensures IndexOf(s, needle) == p
  {
    IndexOfSpec(s, needle);
  }

  /** No occurrence at all: `indexOf` is -1. */
  lemma IndexOfNone<T>(s: seq<T>, needle: seq<T>)
    requires forall i :: 0 <= i <= |s| ==> !OccursAt(s, needle, i)
    ensures IndexOf(s, needle) == -1
  {
    IndexOfSpec(s, needle);
  }

  /** An occurrence at `p`: `indexOf` finds one at or before `p`. */
  lemma IndexOfSome<T>(s: seq<T>, needle: seq<T>, p: int)
    requires OccursAt(s, needle, p)
    ensures 0 <= IndexOf(s, needle) <= p
  {
    IndexOfSpec(s, needle);
  }

  /** A one-element needle occurs exactly where that element is. */
  lemma ElemOccurs<T>(s: seq<T>, c: T)
    ensures forall i :: OccursAt(s, [c], i) <==> 0 <= i < |s| && s[i] == c
  {
    forall i
      ensures OccursAt(s, [c], i) <==> 0 <= i < |s| && s[i] == c
    {
      if 0 <= i < |s| {
        assert s[i..i + 1] == [s[i]];
      }
    }
  }

  /** `indexOf` of one element: -1 exactly when it is absent, otherwise the
      position of its first appearance. */
  lemma IndexOfElem<T>(s: seq<T>, c: T)
    ensures IndexOf(s, [c]) == -1 <==> c !in s
    ensures IndexOf(s, [c]) >= 0 ==>
      IndexOf(s, [c]) < |s| && s[IndexOf(s, [c])] == c && c !in s[..IndexOf(s, [c])]
  {
    var r := IndexOf(s, [c]);
    IndexOfSpec(s, [c]);
    ElemOccurs(s, c);
    if r == -1 {
      forall i | 0 <= i < |s|
        ensures s[i] != c
      {
        assert !OccursAt(s, [c], i);
      }
    } else {
      assert OccursAt(s, [c], r);
      forall i | 0 <= i < r
        ensures s[..r][i] != c
      {
        assert !OccursAt(s, [c], i);
      }
    }
  }

  // ---------------------------------------------------------------------------
  // split and join

  /** `s.split(sep)` for a non-empty separator: the pieces between the
      non-overlapping occurrences of `sep`, found from the left. */
  function Split<T(==)>(s: seq<T>, sep: seq<T>): (parts: seq<seq<T>>)
    requires |sep| > 0
    ensures |parts| >= 1
    decreases |s|
  {
    var i := IndexOf(s, sep);
    if i == -1 then [s] else [s[..i]] + Split(s[i + |sep|..], sep)
  }

  /** Without an occurrence of the separator, the text is the only piece. */
  lemma SplitNone<T>(s: seq<T>, sep: seq<T>)
    requires |sep| > 0 && IndexOf(s, sep) == -1
    ensures Split(s, sep) == [s]
  {
  }

  /** The first piece ends where the first occurrence begins; the split goes on
      after that occurrence. */
  lemma SplitAt<T>(s: seq<T>, sep: seq<T>, i: nat)
    requires |sep| > 0 && IndexOf(s, sep) == i
    ensures i + |sep| <= |s|
    ensures Split(s, sep) == [s[..i]] + Split(s[i + |sep|..], sep)
  {
    assert i + |sep| <= |s|;
    var tail := Split(s[i + |sep|..], sep);
    SplitTail(s, sep, i);
    ConsEq(Split(s, sep), s[..i], tail);
  }

  lemma SplitTail<T>(s: seq<T>, sep: seq<T>, i: nat)
    requires |sep| > 0 && IndexOf(s, sep) == i && i + |sep| <= |s|
    ensures Split(s, sep)[0] == s[..i]
    ensures Split(s, sep)[1..] == Split(s[i + |sep|..], sep)
  {
    DropCons(s[..i], Split(s[i + |sep|..], sep));
  }

  lemma DropCons<T>(a: T, t: seq<T>)
    ensures ([a] + t)[1..] == t
  {
  }

  lemma ThirdOf<T>(p: seq<T>, a: T, b: T, t: seq<T>)
    requires p == [a] + ([b] + t) && |t| >= 1
    ensures p[2] == t[0]
  {
  }

  lemma ConsEq<T>(p: seq<T>, a: T, t: seq<T>)
    requires |p| >= 1 && p[0] == a && p[1..] == t
    ensures p == [a] + t
  {
  }

  /** No piece of a split holds the separator. */
  lemma {:induction false} SplitPartsClean<T>(s: seq<T>, sep: seq<T>)
    requires |sep| > 0
    ensures forall k :: 0 <= k < |Split(s, sep)| ==> IndexOf(Split(s, sep)[k], sep) == -1
    decreases |s|
  {
    var i := IndexOf(s, sep);
    IndexOfSpec(s, sep);
    if i != -1 {
      var head, rest := s[..i], s[i + |sep|..];
      assert forall j :: 0 <= j <= |head| ==> (OccursAt(head, sep, j) ==> OccursAt(s, sep, j));
      IndexOfNone(head, sep);
      SplitPartsClean(rest, sep);
      assert Split(s, sep) == [head] + Split(rest, sep);
    }
  }

  /** Total length of a list of pieces. */
  function TotalLength<T>(parts: seq<seq<T>>): nat
  {
    if parts == [] then 0 else |parts[0]| + TotalLength(parts[1..])
  }

  /** `parts.join(sep)`: every piece, with one separator between two pieces. */
  function Join<T>(parts: seq<seq<T>>, sep: seq<T>): (r: seq<T>)
    ensures |parts| >= 1 ==> |r| == TotalLength(parts) + (|parts| - 1) * |sep|
  {
    if |parts| == 0 then []
    else if |parts| == 1 then parts[0]
    else parts[0] + sep + Join(parts[1..], sep)
  }

  /** Splitting and joining again gives back the text: `split` loses nothing. */
  lemma {:induction false} JoinSplit<T>(s: seq<T>, sep: seq<T>)
    requires |sep| > 0
    ensures Join(Split(s, sep), sep) == s
    decreases |s|
  {
    var i := IndexOf(s, sep);
    IndexOfSpec(s, sep);
    if i != -1 {
      var head, rest := s[..i], s[i + |sep|..];
      assert s == head + sep + rest by {
        assert s[i..i + |sep|] == sep;
        assert s == s[..i] + s[i..i + |sep|] + s[i + |sep|..];
      }
      assert Split(s, sep) == [head] + Split(rest, sep);
      JoinSplit(rest, sep);
      JoinCons(head, Split(rest, sep), sep);
    }
  }

  lemma JoinCons<T>(head: seq<T>, tail: seq<seq<T>>, sep: seq<T>)
    requires |tail| >= 1
    ensures Join([head] + tail, sep) == head + sep + Join(tail, sep)
  {
    assert ([head] + tail)[1..] == tail;
  }

  /** Prefixing the first piece prefixes the joined text. */
  lemma JoinPrefix<T>(x: seq<T>, parts: seq<seq<T>>, sep: seq<T>)
    requires |parts| >= 1
    ensures Join([x + parts[0]] + parts[1..], sep) == x + Join(parts, sep)
  {
    if |parts| > 1 {
      JoinCons(x + parts[0], parts[1..], sep);
      JoinCons(parts[0], parts[1..], sep);
      assert parts == [parts[0]] + parts[1..];
    }
  }

  /** A separator at the very front: an empty first piece, so the joined text
      starts with the glue. */
  lemma JoinSplitFront<T>(s: seq<T>, sep: seq<T>, glue: seq<T>)
    requires |sep| > 0 && OccursAt(s, sep, 0)
    ensures Join(Split(s, sep), glue) == glue + Join(Split(s[|sep|..], sep), glue)
  {
    IndexOfAfter(s, sep, 0);
    SplitAt(s, sep, 0);
    assert s[..0] == [];
    JoinCons([], Split(s[|sep|..], sep), glue);
    assert [] + glue == glue;
  }

  /** No separator at the front: the first element opens the first piece. */
  lemma JoinSplitOther<T>(s: seq<T>, sep: seq<T>, glue: seq<T>)
    requires |sep| > 0 && |s| > 0 && !OccursAt(s, sep, 0)
    ensures Join(Split(s, sep), glue) == [s[0]] + Join(Split(s[1..], sep), glue)
  {
    var tail := Split(s[1..], sep);
    SplitDropFirst(s, sep);
    ConsEq(Split(s, sep), [s[0]] + tail[0], tail[1..]);
    JoinPrefix([s[0]], tail, glue);
  }

  /** How the first piece of a split changes when the text loses its first
      element and no separator starts there. */
  lemma {:induction false} SplitDropFirst<T>(s: seq<T>, sep: seq<T>)
    requires |sep| > 0 && |s| > 0 && !OccursAt(s, sep, 0)
    ensures Split(s, sep)[0] == [s[0]] + Split(s[1..], sep)[0]
    ensures Split(s, sep)[1..] == Split(s[1..], sep)[1..]
  {
    var k := IndexOf(s[1..], sep);
    assert IndexOf(s, sep) == if k == -1 then -1 else k + 1;
    if k == -1 {
      SplitDropFirstWhole(s, sep);
    } else {
      SplitDropFirstAt(s, sep, k);
    }
  }

  lemma {:induction false} SplitDropFirstWhole<T>(s: seq<T>, sep: seq<T>)
    requires |sep| > 0 && |s| > 0 && IndexOf(s, sep) == -1 && IndexOf(s[1..], sep) == -1
    ensures Split(s, sep)[0] == [s[0]] + Split(s[1..], sep)[0]
    ensures Split(s, sep)[1..] == Split(s[1..], sep)[1..]
  {
    SplitNone(s, sep);
    SplitNone(s[1..], sep);
    assert s == [s[0]] + s[1..];
  }

  lemma {:induction false} SplitDropFirstAt<T>(s: seq<T>, sep: seq<T>, k: nat)
    requires |sep| > 0 && |s| > 0 && IndexOf(s, sep) == k + 1 && IndexOf(s[1..], sep) == k
    ensures Split(s, sep)[0] == [s[0]] + Split(s[1..], sep)[0]
    ensures Split(s, sep)[1..] == Split(s[1..], sep)[1..]
  {
    SplitTail(s, sep, k + 1);
    SplitShifted(s, s[1..], sep, k);
  }

  /** The split of `t == s[1..]`, its found separator at `k`, read back on `s`. */
  lemma SplitShifted<T>(s: seq<T>, t: seq<T>, sep: seq<T>, k: nat)
    requires |sep| > 0 && |s| > 0 && t == s[1..] && IndexOf(t, sep) == k && k + |sep| <= |t|
    ensures [s[0]] + Split(t, sep)[0] == s[..k + 1]
    ensures Split(t, sep)[1..] == Split(s[k + 1 + |sep|..], sep)
  {
    SplitTail(t, sep, k);
    TakeDropOne(s, k, k + |sep|, k + 1 + |sep|);
  }

  lemma TakeDropOne<T>(s: seq<T>, k: nat, j: nat, j': nat)
    requires k < |s| && j < |s| && j' == j + 1
    ensures s[..k + 1] == [s[0]] + s[1..][..k]
    ensures s[1..][j..] == s[j'..]
  {
  }

  /** For a one-element separator that no part contains, `split` undoes `join`. */
  lemma {:induction false} SplitJoin<T>(parts: seq<seq<T>>, c: T)
    requires |parts| >= 1
    requires forall k :: 0 <= k < |parts| ==> c !in parts[k]
    ensures Split(Join(parts, [c]), [c]) == parts
    decreases |parts|
  {
    var s := Join(parts, [c]);
    var p := parts[0];
    forall i | 0 <= i < |p| ensures !OccursAt(s, [c], i) {
      if |parts| > 1 {
        assert s == p + [c] + Join(parts[1..], [c]);
      }
      assert s[i] == p[i];
    }
    if |parts| == 1 {
      assert !OccursAt(s, [c], |p|);
      IndexOfNone(s, [c]);
    } else {
      var rest := Join(parts[1..], [c]);
      assert s == p + [c] + rest;
      assert OccursAt(s, [c], |p|);
      IndexOfAfter(s, [c], |p|);
      assert s[|p| + 1..] == rest;
      assert s[..|p|] == p;
      SplitJoin(parts[1..], c);
    }
  }

  // ---------------------------------------------------------------------------
  // replace(/x/g, y) for a single character

  /** Every `from` replaced by `to`, everything else kept in place. */
  function ReplaceChar(s: string, from: char, to: char): (r: string)
    ensures |r| == |s|
    ensures forall i :: 0 <= i < |s| ==> r[i] == (if s[i] == from then to else s[i])
  {
    if s == [] then [] else [if s[0] == from then to else s[0]] + ReplaceChar(s[1..], from, to)
  }

  // ---------------------------------------------------------------------------
  // numbers as text

  /** The value of `Number(s)` for the texts the model needs; every other text
      is treated as not a number. */
  datatype JsNumber = Num(value: nat) | NaN

  predicate IsDigit(c: char)
  {
    '0' <= c <= '9'
  }

  predicate AllDigits(s: string)
  {
    forall i :: 0 <= i < |s| ==> IsDigit(s[i])
  }

  function DigitChar(d: nat): (c: char)
    requires d < 10
    ensures IsDigit(c)
  {
    ('0' as int + d) as char
  }

  /** The decimal value of a digit string, most significant digit first. */
  function DigitsValue(s: string): nat
    requires AllDigits(s)
    decreases |s|
  {
    if s == [] then 0 else DigitsValue(s[..|s| - 1]) * 10 + (s[|s| - 1] as int - '0' as int)
  }

  /** `Number(s)`: a digit string (the empty one included, which JavaScript reads
      as 0) is its decimal value. */
  function ToNumber(s: string): (r: JsNumber)
    ensures r.Num? <==> AllDigits(s)
    ensures s == "" ==> r == Num(0)
    ensures |s| == 1 && IsDigit(s[0]) ==> r == Num(s[0] as int - '0' as int)
  {
    assert |s| == 1 && IsDigit(s[0]) ==> AllDigits(s[..0]) && DigitsValue(s[..0]) == 0;
    if AllDigits(s) then Num(DigitsValue(s)) else NaN
  }

  /** The decimal rendering of a non-negative integer, as template literals and
      `Array.prototype.toString` produce it. */
  function ShowNat(n: nat): (s: string)
    ensures |s| >= 1 && AllDigits(s)
    ensures s[0] == '0' ==> n == 0
    decreases n
  {
    if n < 10 then [DigitChar(n)] else ShowNat(n / 10) + [DigitChar(n % 10)]
  }

  /** `Number` reads back what `ShowNat` renders. */
  lemma {:induction false} ShowNatRoundTrip(n: nat)
    ensures ToNumber(ShowNat(n)) == Num(n)
    decreases n
  {
    var s := ShowNat(n);
    if n >= 10 {
      ShowNatRoundTrip(n / 10);
      assert s[..|s| - 1] == ShowNat(n / 10);
      assert s[|s| - 1] as int - '0' as int == n % 10;
      assert DigitsValue(s) == DigitsValue(ShowNat(n / 10)) * 10 + n % 10;
    }
  }

  /** A rendered number never contains a character that is not a digit. */
  lemma ShowNatHasNo(n: nat, c: char)
    requires !IsDigit(c)
    ensures c !in ShowNat(n)
  {
  }
}

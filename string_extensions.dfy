/** StringExtensions: a separator splitter that skips empty segments before a separator but
    always yields the final remainder, and the enumeration of the ints those segments parse to,
    which stops at the first segment that does not parse.

    The C# methods are lazy iterators; here each returns the whole sequence it would yield. */
module StringExtensions {
  import opened Wrappers
  import opened Values
  import Decimal

  /** `text.IndexOf(separator, startIndex)`: the first index at or after `from` holding the
      separator, or -1. */
  function IndexOf(text: string, separator: char, from: nat): (r: int)
    requires from <= |text|
    ensures r == -1 || from <= r < |text|
    ensures r == -1 ==> forall i :: from <= i < |text| ==> text[i] != separator
    ensures r != -1 ==> text[r] == separator && forall i :: from <= i < r ==> text[i] != separator
    decreases |text| - from
  {
    if from == |text| then -1
    else if text[from] == separator then from
    else IndexOf(text, separator, from + 1)
  }

  /** What SplitEnumerate yields from `start` on, one separator at a time. */
  function SegmentsFrom(text: string, separator: char, start: nat): (r: seq<string>)
    requires start <= |text|
    ensures |r| > 0
    decreases |text| - start
  {
    var k := IndexOf(text, separator, start);
    if k == -1 then [text[start..]]
    else if k == start then SegmentsFrom(text, separator, k + 1)
    else [text[start..k]] + SegmentsFrom(text, separator, k + 1)
  }

  function Segments(text: string, separator: char): (r: seq<string>)
    ensures |r| > 0
  {
    SegmentsFrom(text, separator, 0)
  }

  /** SplitEnumerate: the loop over IndexOf, collecting what it yields. */
  method SplitEnumerate(text: string, separator: char) returns (segments: seq<string>)
    ensures segments == Segments(text, separator)
  {
    segments := [];
    var startIndex := 0;
    var separatorIndex := IndexOf(text, separator, startIndex);
    while separatorIndex >= 0
      invariant 0 <= startIndex <= |text|
      invariant separatorIndex == IndexOf(text, separator, startIndex)
      invariant segments + SegmentsFrom(text, separator, startIndex) == Segments(text, separator)
      decreases |text| - startIndex
    {
      var length := separatorIndex - startIndex;
      if length > 0 {
        segments := segments + [text[startIndex..separatorIndex]];
      }
      startIndex := separatorIndex + 1;
      separatorIndex := IndexOf(text, separator, startIndex);
    }
    segments := segments + [text[startIndex..]];
  }

  predicate NoneContains(parts: seq<string>, separator: char)
  {
    forall i :: 0 <= i < |parts| ==> separator !in parts[i]
  }

  predicate NoEmptyBeforeLast(parts: seq<string>)
  {
    forall i :: 0 <= i < |parts| - 1 ==> |parts[i]| > 0
  }

  /** No segment contains the separator. */
  lemma {:induction false} SegmentsHaveNoSeparator(text: string, separator: char, start: nat)
    requires start <= |text|
    ensures NoneContains(SegmentsFrom(text, separator, start), separator)
    decreases |text| - start
  {
    var k := IndexOf(text, separator, start);
    var r := SegmentsFrom(text, separator, start);
    if k == -1 {
      assert forall j :: 0 <= j < |text| - start ==> text[start..][j] == text[start + j];
    } else if k == start {
      SegmentsHaveNoSeparator(text, separator, k + 1);
      assert r == SegmentsFrom(text, separator, k + 1);
    } else {
      SegmentsHaveNoSeparator(text, separator, k + 1);
      var rest := SegmentsFrom(text, separator, k + 1);
      assert r == [text[start..k]] + rest;
      assert forall j :: 0 <= j < k - start ==> text[start..k][j] == text[start + j];
      forall i | 0 <= i < |r|
        ensures separator !in r[i]
      {
        if i > 0 {
          assert r[i] == rest[i - 1];
        }
      }
    }
  }

  /** Only the last segment can be empty. */
  lemma {:induction false} OnlyLastSegmentEmpty(text: string, separator: char, start: nat)
    requires start <= |text|
    ensures NoEmptyBeforeLast(SegmentsFrom(text, separator, start))
    decreases |text| - start
  {
    var k := IndexOf(text, separator, start);
    if k == start {
      OnlyLastSegmentEmpty(text, separator, k + 1);
      assert SegmentsFrom(text, separator, start) == SegmentsFrom(text, separator, k + 1);
    } else if k > start {
      OnlyLastSegmentEmpty(text, separator, k + 1);
      var r := SegmentsFrom(text, separator, start);
      var rest := SegmentsFrom(text, separator, k + 1);
      assert r == [text[start..k]] + rest;
      forall i | 0 <= i < |r| - 1
        ensures |r[i]| > 0
      {
        if i > 0 {
          assert r[i] == rest[i - 1];
        }
      }
    }
  }

  function Concat(parts: seq<string>): string
  {
    if parts == [] then "" else parts[0] + Concat(parts[1..])
  }

  /** The text with every separator removed. */
  function RemoveAll(text: string, separator: char): (r: string)
    ensures separator !in r
  {
    if text == [] then ""
    else (if text[0] == separator then "" else [text[0]]) + RemoveAll(text[1..], separator)
  }

  lemma {:induction false} RemoveAllAppend(a: string, b: string, separator: char)
    ensures RemoveAll(a + b, separator) == RemoveAll(a, separator) + RemoveAll(b, separator)
    decreases |a|
  {
    if a != [] {
      assert (a + b)[1..] == a[1..] + b;
      RemoveAllAppend(a[1..], b, separator);
    } else {
      assert a + b == b;
    }
  }

  lemma {:induction false} RemoveAllNone(a: string, separator: char)
    requires separator !in a
    ensures RemoveAll(a, separator) == a
    decreases |a|
  {
    if a != [] {
      RemoveAllNone(a[1..], separator);
      assert [a[0]] + a[1..] == a;
    }
  }

  /** Removing separators across the first separator at or after `start`. */
  lemma RemoveAllAround(text: string, separator: char, start: nat, k: nat)
    requires start <= k < |text| && text[k] == separator
    requires forall i :: start <= i < k ==> text[i] != separator
    ensures RemoveAll(text[start..], separator) == text[start..k] + RemoveAll(text[k + 1..], separator)
  {
    var head, rest := text[start..k], text[k + 1..];
    assert text[start..] == head + ([separator] + rest);
    RemoveAllAppend(head, [separator] + rest, separator);
    assert ([separator] + rest)[1..] == rest;
    assert forall j :: 0 <= j < |head| ==> head[j] == text[start + j];
    RemoveAllNone(head, separator);
  }

  /** Joining the segments gives back the text without its separators. */
  lemma {:induction false} SegmentsConcat(text: string, separator: char, start: nat)
    requires start <= |text|
    ensures Concat(SegmentsFrom(text, separator, start)) == RemoveAll(text[start..], separator)
    decreases |text| - start
  {
    var k := IndexOf(text, separator, start);
    var r := SegmentsFrom(text, separator, start);
    if k == -1 {
      assert forall j :: 0 <= j < |text| - start ==> text[start..][j] == text[start + j];
      RemoveAllNone(text[start..], separator);
      assert Concat(r) == text[start..] + Concat([]);
    } else {
      var rest := SegmentsFrom(text, separator, k + 1);
      SegmentsConcat(text, separator, k + 1);
      RemoveAllAround(text, separator, start, k);
      if k > start {
        assert r == [text[start..k]] + rest;
        ConcatCons(text[start..k], rest);
      } else {
        assert r == rest;
        assert text[start..k] + RemoveAll(text[k + 1..], separator) == RemoveAll(text[k + 1..], separator);
      }
    }
  }

  lemma ConcatCons(part: string, rest: seq<string>)
    ensures Concat([part] + rest) == part + Concat(rest)
  {
    assert ([part] + rest)[1..] == rest;
  }

  /** The three segment laws, for the whole text. */
  lemma SegmentLaws(text: string, separator: char)
    ensures NoneContains(Segments(text, separator), separator)
    ensures NoEmptyBeforeLast(Segments(text, separator))
    ensures Concat(Segments(text, separator)) == RemoveAll(text, separator)
  {
    SegmentsHaveNoSeparator(text, separator, 0);
    OnlyLastSegmentEmpty(text, separator, 0);
    SegmentsConcat(text, separator, 0);
    assert text[0..] == text;
  }

  /** The edge cases: the empty text is one empty segment, a trailing separator leaves an empty
      last segment, and a doubled separator yields no empty segment in between. */
  lemma SplitExamples()
    ensures Segments("", ',') == [""]
    ensures Segments("a,", ',') == ["a", ""]
    ensures Segments("1,,2", ',') == ["1", "2"]
    ensures Segments(",a", ',') == ["a"]
  {
    assert IndexOf("a,", ',', 0) == 1 && IndexOf("a,", ',', 2) == -1;
    assert "a,"[..1] == "a" && "a,"[2..] == "";
    assert IndexOf("1,,2", ',', 0) == 1 && IndexOf("1,,2", ',', 2) == 2 && IndexOf("1,,2", ',', 3) == -1;
    assert "1,,2"[0..1] == "1" && "1,,2"[3..] == "2";
    assert IndexOf(",a", ',', 0) == 0 && IndexOf(",a", ',', 1) == -1;
    assert ",a"[1..] == "a";
  }

  /** The ints of the leading segments that parse, up to the first that does not. */
  function ParsedPrefix(segments: seq<string>): (r: seq<int32>)
    ensures |r| <= |segments|
    ensures forall i :: 0 <= i < |r| ==> Decimal.ParseInt32(segments[i]) == Some(r[i])
    ensures |r| < |segments| ==> Decimal.ParseInt32(segments[|r|]).None?
  {
    if segments == [] then []
    else match Decimal.ParseInt32(segments[0])
      case None => []
      case Some(n) => [n] + ParsedPrefix(segments[1..])
  }

  /** EnumerateInts: the foreach over the segments with its early `yield break`. */
  method EnumerateInts(text: string, separator: char) returns (numbers: seq<int32>)
    ensures numbers == ParsedPrefix(Segments(text, separator))
    ensures |numbers| <= |Segments(text, separator)|
  {
    var segments := SplitEnumerate(text, separator);
    numbers := [];
    var i := 0;
    while i < |segments|
      invariant 0 <= i <= |segments|
      invariant numbers + ParsedPrefix(segments[i..]) == ParsedPrefix(segments)
      decreases |segments| - i
    {
      match Decimal.ParseInt32(segments[i]) {
        case None =>
          return;
        case Some(n) =>
          assert segments[i..][1..] == segments[i + 1..];
          numbers := numbers + [n];
      }
      i := i + 1;
    }
  }
}

/** Go's `strings.Split` and `strings.Join` for a one-character separator,
    over `seq<char>`. */
module Strings {

  /** The parts with `sep` between consecutive ones. */
  function Join(parts: seq<string>, sep: char): string
    decreases |parts|
  {
    if |parts| == 0 then ""
    else if |parts| == 1 then parts[0]
    else parts[0] + [sep] + Join(parts[1..], sep)
  }

  /** The fields of `s` around every occurrence of `sep`; the empty string has
      one (empty) field, exactly as `strings.Split(s, sep)` does. */
  function Split(s: string, sep: char): (parts: seq<string>)
    ensures |parts| >= 1
    ensures forall i :: 0 <= i < |parts| ==> sep !in parts[i]
    decreases |s|
  {
    if |s| == 0 then [""]
    else
      var rest := Split(s[1..], sep);
      if s[0] == sep then [""] + rest
      else [[s[0]] + rest[0]] + rest[1..]
  }

  /** Joining the fields back with the separator gives the original string. */
  lemma {:induction false} JoinSplit(s: string, sep: char)
    ensures Join(Split(s, sep), sep) == s
    decreases |s|
  {
    if |s| > 0 {
      var rest := Split(s[1..], sep);
      JoinSplit(s[1..], sep);
      if s[0] == sep {
        assert ([""] + rest)[1..] == rest;
      } else {
        var parts := [[s[0]] + rest[0]] + rest[1..];
        assert parts[1..] == rest[1..];
        if |rest| > 1 {
          assert Join(rest, sep) == rest[0] + [sep] + Join(rest[1..], sep);
          assert Join(parts, sep) == [s[0]] + rest[0] + [sep] + Join(rest[1..], sep);
        }
        assert s == [s[0]] + s[1..];
      }
    }
  }

  /** Splitting a string whose prefix `a` holds no separator extends the first field by `a`. */
  lemma {:induction false} SplitPrefix(a: string, t: string, sep: char)
    requires sep !in a
    ensures Split(a + t, sep) == [a + Split(t, sep)[0]] + Split(t, sep)[1..]
    decreases |a|
  {
    if |a| > 0 {
      SplitPrefix(a[1..], t, sep);
      assert (a + t)[1..] == a[1..] + t;
      assert [a[0]] + (a[1..] + Split(t, sep)[0]) == a + Split(t, sep)[0];
    } else {
      assert a + t == t;
      assert a + Split(t, sep)[0] == Split(t, sep)[0];
      assert Split(t, sep) == [Split(t, sep)[0]] + Split(t, sep)[1..];
    }
  }

  /** Splitting undoes joining, for fields that do not contain the separator. */
  lemma {:induction false} SplitJoin(parts: seq<string>, sep: char)
    requires |parts| >= 1
    requires forall i :: 0 <= i < |parts| ==> sep !in parts[i]
    ensures Split(Join(parts, sep), sep) == parts
    decreases |parts|
  {
    if |parts| == 1 {
      SplitPrefix(parts[0], "", sep);
      assert parts[0] + "" == parts[0];
      assert Split("", sep) == [""];
    } else {
      var tail := Join(parts[1..], sep);
      assert Join(parts, sep) == parts[0] + [sep] + tail;
      SplitJoin(parts[1..], sep);
      assert parts[0] + [sep] + tail == parts[0] + ([sep] + tail);
      SplitPrefix(parts[0], [sep] + tail, sep);
      assert ([sep] + tail)[1..] == tail;
      var rest := Split([sep] + tail, sep);
      assert rest == [""] + parts[1..];
      assert rest[0] == "" && rest[1..] == parts[1..];
      assert parts[0] + rest[0] == parts[0];
      assert parts == [parts[0]] + parts[1..];
    }
  }

  /** `strings.Split(s, sep)[0]`: the text before the first `sep`, or all of `s`. */
  function FirstField(s: string, sep: char): (r: string)
    ensures |r| <= |s| && s[..|r|] == r
    ensures sep !in r
    ensures |r| < |s| ==> s[|r|] == sep
    ensures sep !in s ==> r == s
  {
    var parts := Split(s, sep);
    JoinSplit(s, sep);
    if |parts| > 1 then
      assert s == parts[0] + [sep] + Join(parts[1..], sep);
      parts[0]
    else
      parts[0]
  }

  /** The three facts FirstField promises pin the result down: any prefix free
      of `sep` that stops at `sep` or at the end is the first field. */
  lemma FirstFieldUnique(s: string, sep: char, r: string)
    requires |r| <= |s| && s[..|r|] == r
    requires sep !in r
    requires |r| < |s| ==> s[|r|] == sep
    ensures r == FirstField(s, sep)
  {
    var f := FirstField(s, sep);
    assert |r| == |f|;
  }

  /** Taking the first field twice is the same as taking it once. */
  lemma FirstFieldIdempotent(s: string, sep: char)
    ensures FirstField(FirstField(s, sep), sep) == FirstField(s, sep)
  {
  }
}

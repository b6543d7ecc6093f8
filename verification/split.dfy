/** Rust's `str::split(delimiter)` on a single character, and its inverse,
    joining pieces with that character. */
module Split {

  /** The number of occurrences of `d` in `s`. */
  function Count(s: string, d: char): nat
  {
    if |s| == 0 then 0 else (if s[0] == d then 1 else 0) + Count(s[1..], d)
  }

  /** The pieces `s.split(d)` yields, in order: the maximal runs between
      delimiters, including the empty ones before a leading, after a trailing
      and between adjacent delimiters. */
  function SplitOn(s: string, d: char): (parts: seq<string>)
    ensures |parts| == Count(s, d) + 1
    ensures forall i :: 0 <= i < |parts| ==> d !in parts[i]
    decreases |s|
  {
    if |s| == 0 then [""]
    else
      var rest := SplitOn(s[1..], d);
      if s[0] == d then [""] + rest
      else [[s[0]] + rest[0]] + rest[1..]
  }

  /** The pieces with `d` put back between each neighbouring pair. */
  function Join(parts: seq<string>, d: char): string
    requires |parts| >= 1
    decreases |parts|
  {
    if |parts| == 1 then parts[0] else parts[0] + [d] + Join(parts[1..], d)
  }

  /** Joining one more piece appends the delimiter and that piece. */
  lemma {:induction false} JoinSnoc(parts: seq<string>, w: string, d: char)
    requires |parts| >= 1
    ensures Join(parts + [w], d) == Join(parts, d) + [d] + w
    decreases |parts|
  {
    var ext := parts + [w];
    assert ext[1..] == parts[1..] + [w];
    if |parts| > 1 {
      JoinSnoc(parts[1..], w, d);
    }
  }

  /** Splitting loses nothing: joining the pieces gives back the string. */
  lemma {:induction false} JoinSplitOn(s: string, d: char)
    ensures Join(SplitOn(s, d), d) == s
    decreases |s|
  {
    if |s| > 0 {
      var rest := SplitOn(s[1..], d);
      JoinSplitOn(s[1..], d);
      if s[0] == d {
        assert SplitOn(s, d)[1..] == rest;
      } else {
        var parts := SplitOn(s, d);
        assert parts[1..] == rest[1..];
        if |rest| == 1 {
          assert parts == [[s[0]] + rest[0]];
        } else {
          assert Join(rest, d) == rest[0] + [d] + Join(rest[1..], d);
        }
      }
    }
  }

  /** A piece free of `d` followed by the delimiter splits off as one piece. */
  lemma {:induction false} SplitOnPrefix(w: string, s: string, d: char)
    requires d !in w
    ensures SplitOn(w + [d] + s, d) == [w] + SplitOn(s, d)
    decreases |w|
  {
    if |w| == 0 {
      assert w + [d] + s == [d] + s;
      assert ([d] + s)[1..] == s;
    } else {
      var t := w + [d] + s;
      assert t[0] == w[0];
      assert t[1..] == w[1..] + [d] + s;
      SplitOnPrefix(w[1..], s, d);
      assert [w[0]] + w[1..] == w;
    }
  }

  /** A string free of `d` is a single piece. */
  lemma {:induction false} SplitOnNoDelimiter(w: string, d: char)
    requires d !in w
    ensures SplitOn(w, d) == [w]
    decreases |w|
  {
    if |w| > 0 {
      SplitOnNoDelimiter(w[1..], d);
      assert [w[0]] + w[1..] == w;
    }
  }

  /** Joining pieces that do not contain the delimiter and splitting again
      gives back exactly those pieces. */
  lemma {:induction false} SplitOnJoin(parts: seq<string>, d: char)
    requires |parts| >= 1
    requires forall i :: 0 <= i < |parts| ==> d !in parts[i]
    ensures SplitOn(Join(parts, d), d) == parts
    decreases |parts|
  {
    if |parts| == 1 {
      SplitOnNoDelimiter(parts[0], d);
    } else {
      SplitOnJoin(parts[1..], d);
      SplitOnPrefix(parts[0], Join(parts[1..], d), d);
      assert [parts[0]] + parts[1..] == parts;
    }
  }
}

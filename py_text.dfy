/** The Python `str` operations both result formatters are built from:
    `isspace`, `strip()`, the slice `s[:n]` and `sep.join(parts)`.
    A Python `str` is a sequence of code points; here it is a `string`,
    whose `char`s are Unicode scalar values. */
module PyText {

  /** Python's `str.isspace()` on one code point: the characters that
      `strip()` with no argument removes from both ends. */
  predicate IsSpace(c: char)
  {
    ('\t' <= c <= '\r')
    || ('\U{1C}' <= c <= '\U{1F}')
    || c == ' ' || c == '\U{85}' || c == '\U{A0}' || c == '\U{1680}'
    || ('\U{2000}' <= c <= '\U{200A}')
    || c == '\U{2028}' || c == '\U{2029}' || c == '\U{202F}' || c == '\U{205F}'
    || c == '\U{3000}'
  }

  predicate AllSpace(s: string)
  {
    forall i :: 0 <= i < |s| ==> IsSpace(s[i])
  }

  /** Neither the first nor the last character is whitespace. */
  predicate NoEdgeSpace(s: string)
  {
    s == [] || (!IsSpace(s[0]) && !IsSpace(s[|s| - 1]))
  }

  /** Python's `s.strip()`: `s` without its leading and trailing whitespace.
      Leading characters go first, then trailing ones; either order gives
      the same text. */
  function Strip(s: string): (r: string)
    ensures |r| <= |s|
    ensures NoEdgeSpace(r)
  {
    if s != [] && IsSpace(s[0]) then Strip(s[1..])
    else if s != [] && IsSpace(s[|s| - 1]) then Strip(s[..|s| - 1])
    else s
  }

  /** `strip()` removes whitespace and nothing else: `s` is the stripped text
      with a run of whitespace in front of it and one behind it. */
  lemma {:induction false} StripParts(s: string) returns (front: string, back: string)
    ensures s == front + Strip(s) + back
    ensures AllSpace(front) && AllSpace(back)
  {
    if s != [] && IsSpace(s[0]) {
      var f, b := StripParts(s[1..]);
      assert Strip(s) == Strip(s[1..]);
      front, back := [s[0]] + f, b;
      AllSpaceConcat([s[0]], f);
      assert s == [s[0]] + s[1..];
      assert front + Strip(s) + back == [s[0]] + (f + Strip(s[1..]) + b);
    } else if s != [] && IsSpace(s[|s| - 1]) {
      var f, b := StripParts(s[..|s| - 1]);
      assert Strip(s) == Strip(s[..|s| - 1]);
      front, back := f, b + [s[|s| - 1]];
      AllSpaceConcat(b, [s[|s| - 1]]);
      assert s == s[..|s| - 1] + [s[|s| - 1]];
      assert front + Strip(s) + back == (f + Strip(s[..|s| - 1]) + b) + [s[|s| - 1]];
    } else {
      assert Strip(s) == s;
      front, back := [], [];
      assert s == [] + s + [];
    }
  }

  /** Any piece of a run of whitespace is whitespace. */
  lemma AllSpaceSlice(s: string, i: nat, j: nat)
    requires AllSpace(s) && i <= j <= |s|
    ensures AllSpace(s[i..j])
  {
    forall k | 0 <= k < j - i ensures IsSpace(s[i..j][k]) {
      assert s[i..j][k] == s[i + k];
    }
  }

  /** Two runs of whitespace in a row are one run of whitespace. */
  lemma AllSpaceConcat(a: string, b: string)
    requires AllSpace(a) && AllSpace(b)
    ensures AllSpace(a + b)
  {
    forall i | 0 <= i < |a + b| ensures IsSpace((a + b)[i]) {
      if i < |a| { assert (a + b)[i] == a[i]; } else { assert (a + b)[i] == b[i - |a|]; }
    }
  }

  /** `strip()` is determined by its two properties: whenever `s` is a piece
      with no whitespace at its edges surrounded by whitespace, `strip()`
      returns exactly that piece. */
  lemma StripUnique(front: string, mid: string, back: string)
    requires AllSpace(front) && AllSpace(back) && NoEdgeSpace(mid)
    ensures Strip(front + mid + back) == mid
  {
    if mid == [] {
      AllSpaceConcat(front, back);
      assert front + mid + back == front + back;
      StripAllSpace(front + back);
    } else {
      assert front + mid + back == front + (mid + back);
      assert (mid + back)[0] == mid[0];
      StripSkipsFront(front, mid + back);
      StripSkipsBack(mid, back);
    }
  }

  /** Text made only of whitespace strips to nothing. */
  lemma {:induction false} StripAllSpace(s: string)
    requires AllSpace(s)
    ensures Strip(s) == []
  {
    if s != [] {
      AllSpaceSlice(s, 1, |s|);
      StripAllSpace(s[1..]);
    }
  }

  /** Whitespace in front of text that opens with a non-whitespace character
      makes no difference to the stripped result. */
  lemma {:induction false} StripSkipsFront(front: string, rest: string)
    requires AllSpace(front) && rest != [] && !IsSpace(rest[0])
    ensures Strip(front + rest) == Strip(rest)
  {
    if front != [] {
      assert (front + rest)[0] == front[0];
      assert (front + rest)[1..] == front[1..] + rest;
      AllSpaceSlice(front, 1, |front|);
      StripSkipsFront(front[1..], rest);
    } else {
      assert front + rest == rest;
    }
  }

  /** Whitespace behind non-empty text with no whitespace at its edges is all
      that stripping removes. */
  lemma {:induction false} StripSkipsBack(mid: string, back: string)
    requires mid != [] && NoEdgeSpace(mid) && AllSpace(back)
    ensures Strip(mid + back) == mid
  {
    var s := mid + back;
    assert s[0] == mid[0];
    if back != [] {
      assert s[|s| - 1] == back[|back| - 1];
      assert s[..|s| - 1] == mid + back[..|back| - 1];
      AllSpaceSlice(back, 0, |back| - 1);
      StripSkipsBack(mid, back[..|back| - 1]);
    } else {
      assert s == mid;
    }
  }

  /** Python's slice `s[:n]` for `n >= 0`: the first `n` characters, or all of
      `s` when it is shorter. */
  function Take(s: string, n: nat): (r: string)
    ensures |r| == if |s| <= n then |s| else n
    ensures r == s[..|r|]
  {
    if |s| <= n then s else s[..n]
  }

  /** Python's `sep.join(parts)`: the parts in order, `sep` between
      neighbours, nothing before the first or after the last. */
  function Join(sep: string, parts: seq<string>): string
  {
    if |parts| == 0 then ""
    else if |parts| == 1 then parts[0]
    else parts[0] + sep + Join(sep, parts[1..])
  }

  /** The sum of the lengths of `parts`. */
  function TotalLength(parts: seq<string>): nat
  {
    if parts == [] then 0 else |parts[0]| + TotalLength(parts[1..])
  }

  /** A join of n parts holds the parts' characters and n - 1 separators. */
  lemma {:induction false} JoinLength(sep: string, parts: seq<string>)
    requires |parts| > 0
    ensures |Join(sep, parts)| == TotalLength(parts) + (|parts| - 1) * |sep|
  {
    if |parts| > 1 {
      JoinLength(sep, parts[1..]);
    }
  }

  /** The first part opens the join and the last part closes it: there is no
      leading or trailing separator. */
  lemma {:induction false} JoinEnds(sep: string, parts: seq<string>)
    requires |parts| > 0
    ensures var j := Join(sep, parts);
      |parts[0]| <= |j| && j[..|parts[0]|] == parts[0]
      && |parts[|parts| - 1]| <= |j| && j[|j| - |parts[|parts| - 1]|..] == parts[|parts| - 1]
  {
    if |parts| > 1 {
      JoinEnds(sep, parts[1..]);
      var j := Join(sep, parts);
      var rest := Join(sep, parts[1..]);
      assert j == parts[0] + (sep + rest);
      assert j[|j| - |rest|..] == rest;
    }
  }

  /** A join splits at any boundary between parts into the join of the parts
      before it, one separator, and the join of the parts after it. */
  lemma {:induction false} JoinSplit(sep: string, parts: seq<string>, k: nat)
    requires 0 < k < |parts|
    ensures Join(sep, parts) == Join(sep, parts[..k]) + sep + Join(sep, parts[k..])
  {
    if k > 1 {
      JoinSplit(sep, parts[1..], k - 1);
      assert parts[1..][..k - 1] == parts[..k][1..];
      assert parts[1..][k - 1..] == parts[k..];
    } else {
      assert parts[..1] == [parts[0]];
      assert parts[1..] == parts[k..];
    }
  }
}

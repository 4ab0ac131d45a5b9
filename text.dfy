/** The string primitives the author-list code takes from Python 2: `str.strip`,
    `str.replace` on one character, `str(n)` for a non-negative integer, and
    joining pieces with a separator (with its inverse, splitting on a character). */
module Text {

  /** The characters Python 2's `str.strip()` removes from a byte string. */
  const Whitespace: set<char> := {' ', '\t', '\n', '\r', '\U{0B}', '\U{0C}'}

  /** How many characters at the start of `s` belong to `cs`. */
  function LeadingCount(s: string, cs: set<char>): (n: nat)
    ensures n <= |s|
    ensures forall k :: 0 <= k < n ==> s[k] in cs
    ensures n == |s| || s[n] !in cs
  {
    if s != [] && s[0] in cs then 1 + LeadingCount(s[1..], cs) else 0
  }

  /** The length of `s` once every trailing character that belongs to `cs` is cut. */
  function KeptLength(s: string, cs: set<char>): (n: nat)
    ensures n <= |s|
    ensures forall k :: n <= k < |s| ==> s[k] in cs
    ensures n == 0 || s[n - 1] !in cs
  {
    if s != [] && s[|s| - 1] in cs then KeptLength(s[..|s| - 1], cs) else |s|
  }

  /** Python's `s.strip(chars)`: cuts the leading, then the trailing characters
      that belong to `cs`. */
  function Strip(s: string, cs: set<char>): (r: string)
    ensures r == [] || (r[0] !in cs && r[|r| - 1] !in cs)
  {
    var t := s[LeadingCount(s, cs)..];
    t[..KeptLength(t, cs)]
  }

  /** What `Strip` cuts is all in `cs`: the result is a run of `s` with only
      characters of `cs` before and after it. */
  lemma StripCuts(s: string, cs: set<char>)
    ensures var r := Strip(s, cs);
            exists lead {:trigger s[lead..]} :: 0 <= lead <= |s| - |r| && s[lead..][..|r|] == r
              && (forall k :: 0 <= k < lead ==> s[k] in cs)
              && (forall k :: lead + |r| <= k < |s| ==> s[k] in cs)
  {
    var lead := LeadingCount(s, cs);
    var t := s[lead..];
    var r := Strip(s, cs);
    assert s[lead..][..|r|] == r;
    forall k | lead + |r| <= k < |s| ensures s[k] in cs {
      assert t[k - lead] == s[k];
    }
  }

  /** Stripping is determined: whatever is cut from both ends, a middle part that
      neither starts nor ends with a character of `cs` is what `Strip` returns. */
  lemma StripPadded(left: string, middle: string, right: string, cs: set<char>)
    requires forall k :: 0 <= k < |left| ==> left[k] in cs
    requires forall k :: 0 <= k < |right| ==> right[k] in cs
    requires middle == [] || (middle[0] !in cs && middle[|middle| - 1] !in cs)
    ensures Strip(left + middle + right, cs) == middle
  {
    var s := left + middle + right;
    var n := LeadingCount(s, cs);
    if middle == [] {
      forall k | 0 <= k < |s| ensures s[k] in cs {
        if k < |left| { assert s[k] == left[k]; } else { assert s[k] == right[k - |left|]; }
      }
      assert s[n..] == [];
    } else {
      assert forall k :: 0 <= k < |left| ==> s[k] == left[k];
      assert s[|left|] == middle[0];
      assert n == |left|;
      var t := s[n..];
      assert t == middle + right;
      var m := KeptLength(t, cs);
      assert forall k :: |middle| <= k < |t| ==> t[k] == right[k - |middle|];
      assert t[|middle| - 1] == middle[|middle| - 1];
      assert m == |middle|;
      assert t[..m] == middle;
    }
  }

  /** Python's `s.replace(from, to)` for one-character `from` and `to`. */
  function Replace(s: string, from: char, to: char): (r: string)
    ensures |r| == |s|
    ensures forall k :: 0 <= k < |s| ==> r[k] == if s[k] == from then to else s[k]
  {
    if s == [] then [] else [if s[0] == from then to else s[0]] + Replace(s[1..], from, to)
  }

  /** Replacing back restores the string when the replacement character was not
      in it to begin with. */
  lemma ReplaceBack(s: string, from: char, to: char)
    requires to !in s
    ensures from != to ==> (to in Replace(s, from, to) <==> from in s)
    ensures Replace(Replace(s, from, to), to, from) == s
  {
    var r := Replace(s, from, to);
    assert from != to ==> (to in r <==> from in s) by {
      if from != to {
        if to in r {
          var k :| 0 <= k < |r| && r[k] == to;
          assert s[k] == from;
        }
        if from in s {
          var k :| 0 <= k < |s| && s[k] == from;
          assert r[k] == to;
        }
      }
    }
    assert Replace(r, to, from) == s;
  }

  predicate IsDigits(s: string) {
    forall k :: 0 <= k < |s| ==> '0' <= s[k] <= '9'
  }

  function DigitChar(d: nat): (c: char)
    requires d < 10
    ensures '0' <= c <= '9' && c as int - '0' as int == d
  {
    (d + '0' as int) as char
  }

  /** Python's `str(n)` for a non-negative integer: its decimal digits, without
      leading zeros. */
  function NatToString(n: nat): (r: string)
    ensures r != [] && IsDigits(r)
    ensures r[0] == '0' ==> r == "0"
    decreases n
  {
    if n < 10 then [DigitChar(n)] else NatToString(n / 10) + [DigitChar(n % 10)]
  }

  /** The number a string of decimal digits denotes. */
  function DigitsValue(s: string): nat
    requires IsDigits(s)
  {
    if s == [] then 0 else DigitsValue(s[..|s| - 1]) * 10 + (s[|s| - 1] as int - '0' as int)
  }

  /** Reading back `str(n)` gives `n`, so distinct numbers print differently. */
  lemma {:induction false} NatToStringValue(n: nat)
    ensures DigitsValue(NatToString(n)) == n
    decreases n
  {
    if n >= 10 {
      NatToStringValue(n / 10);
      var s := NatToString(n);
      assert s[..|s| - 1] == NatToString(n / 10);
    }
  }

  /** `sep.join(parts)`: the parts in order, with `sep` between neighbours only. */
  function Join(parts: seq<string>, sep: string): string
  {
    if |parts| == 0 then ""
    else if |parts| == 1 then parts[0]
    else Join(parts[..|parts| - 1], sep) + sep + parts[|parts| - 1]
  }

  /** `s.split(c)`: the maximal pieces of `s` that do not contain `c`. */
  function SplitOn(s: string, c: char): (r: seq<string>)
    ensures |r| >= 1
    ensures forall k :: 0 <= k < |r| ==> c !in r[k]
  {
    if s == [] then [""]
    else
      var p := SplitOn(s[..|s| - 1], c);
      if s[|s| - 1] == c then p + [""] else p[..|p| - 1] + [p[|p| - 1] + [s[|s| - 1]]]
  }

  lemma {:induction false} SplitOnNoSeparator(s: string, c: char)
    requires c !in s
    ensures SplitOn(s, c) == [s]
  {
    if s != [] {
      SplitOnNoSeparator(s[..|s| - 1], c);
      assert s[..|s| - 1] + [s[|s| - 1]] == s;
    }
  }

  lemma {:induction false} SplitOnAfterSeparator(x: string, y: string, c: char)
    requires c !in y
    ensures SplitOn(x + [c] + y, c) == SplitOn(x, c) + [y]
    decreases |y|
  {
    var s := x + [c] + y;
    if y == [] {
      assert s[..|s| - 1] == x;
    } else {
      var y' := y[..|y| - 1];
      SplitOnAfterSeparator(x, y', c);
      assert s[..|s| - 1] == x + [c] + y';
      assert y' + [y[|y| - 1]] == y;
    }
  }

  /** Splitting a joined list on its one-character separator gives the list back,
      when no part contains the separator. */
  lemma {:induction false} SplitOnJoin(parts: seq<string>, c: char)
    requires |parts| >= 1
    requires forall k :: 0 <= k < |parts| ==> c !in parts[k]
    ensures SplitOn(Join(parts, [c]), c) == parts
  {
    if |parts| == 1 {
      SplitOnNoSeparator(parts[0], c);
    } else {
      var init := parts[..|parts| - 1];
      SplitOnJoin(init, c);
      SplitOnAfterSeparator(Join(init, [c]), parts[|parts| - 1], c);
      assert init + [parts[|parts| - 1]] == parts;
    }
  }

  /** A non-empty sequence is its first element followed by the rest. */
  lemma HeadTail<T>(s: seq<T>)
    requires s != []
    ensures s == [s[0]] + s[1..]
  {
  }

  /** The first `k` parts of a list written out the way the formatters' loops do it:
      each part followed by `sep` unless it is the last part of the whole list. */
  function JoinPrefix(parts: seq<string>, sep: string, k: nat): string
    requires k <= |parts|
  {
    if k == 0 then "" else JoinPrefix(parts, sep, k - 1) + parts[k - 1] + (if k == |parts| then "" else sep)
  }

  /** One more part written after `line`: the part, then `sep` unless it was the last. */
  lemma JoinPrefixStep(line: string, parts: seq<string>, sep: string, k: nat)
    requires k < |parts|
    ensures k + 1 < |parts| ==>
              line + JoinPrefix(parts, sep, k + 1) == line + JoinPrefix(parts, sep, k) + parts[k] + sep
    ensures k + 1 == |parts| ==>
              line + JoinPrefix(parts, sep, k + 1) == line + JoinPrefix(parts, sep, k) + parts[k]
  {
    assert JoinPrefix(parts, sep, k + 1) ==
           JoinPrefix(parts, sep, k) + parts[k] + (if k + 1 == |parts| then "" else sep);
  }

  lemma {:induction false} JoinPrefixOpen(parts: seq<string>, sep: string, k: nat)
    requires 0 < k < |parts|
    ensures JoinPrefix(parts, sep, k) == Join(parts[..k], sep) + sep
  {
    if k > 1 {
      JoinPrefixOpen(parts, sep, k - 1);
      assert parts[..k][..k - 1] == parts[..k - 1];
    }
  }

  /** Writing a separator after every part but the last is `sep.join(parts)`: no
      separator before the first part or after the last. */
  lemma JoinPrefixComplete(parts: seq<string>, sep: string)
    ensures JoinPrefix(parts, sep, |parts|) == Join(parts, sep)
  {
    var n := |parts|;
    if n > 1 {
      JoinPrefixOpen(parts, sep, n - 1);
    }
  }
}

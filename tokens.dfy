/**
 * `split_at_ws` (peace.cpp): extracting `std::string`s with `operator>>` from an
 * `istringstream` until it fails, which skips whitespace and reads maximal runs of
 * non-whitespace characters. Whitespace is `isspace` of the classic "C" locale.
 */
module Tokens {
  import opened Bytes

  /** `isspace` in the "C" locale: space, \t, \n, \v, \f and \r. */
  predicate IsSpace(c: char) {
    c == ' ' || c == '\t' || c == '\n' || c == '\U{B}' || c == '\U{C}' || c == '\r'
  }

  /** A token as `operator>>` delivers it: non-empty and free of whitespace. */
  predicate IsToken(t: string) {
    |t| > 0 && forall i :: 0 <= i < |t| ==> !IsSpace(t[i])
  }

  /** The length of the run of non-whitespace characters at the start of `s`. */
  function RunLength(s: string): (n: nat)
    ensures n <= |s|
    ensures forall i :: 0 <= i < n ==> !IsSpace(s[i])
    ensures n < |s| ==> IsSpace(s[n])
  {
    if s == [] || IsSpace(s[0]) then 0 else 1 + RunLength(s[1..])
  }

  /** `split_at_ws(str)`: skip whitespace, read one maximal run, repeat until the end. */
  function SplitAtWs(s: string): (tokens: seq<string>)
    ensures forall k :: 0 <= k < |tokens| ==> IsToken(tokens[k])
    decreases |s|
  {
    if s == [] then []
    else if IsSpace(s[0]) then SplitAtWs(s[1..])
    else
      var n := RunLength(s);
      [s[..n]] + SplitAtWs(s[n..])
  }

  /** The characters of `s` that are not whitespace, in order. */
  function NonSpace(s: string): string {
    if s == [] then [] else (if IsSpace(s[0]) then [] else [s[0]]) + NonSpace(s[1..])
  }

  /** Tokens joined with single spaces, as a command line would be typed. */
  function JoinWithSpaces(ts: seq<string>): string {
    if ts == [] then []
    else if |ts| == 1 then ts[0]
    else ts[0] + " " + JoinWithSpaces(ts[1..])
  }

  lemma {:induction false} NonSpaceAppend(a: string, b: string)
    ensures NonSpace(a + b) == NonSpace(a) + NonSpace(b)
  {
    if a != [] {
      assert (a + b)[1..] == a[1..] + b;
      NonSpaceAppend(a[1..], b);
    } else {
      assert a + b == b;
    }
  }

  lemma {:induction false} NonSpaceOfToken(t: string)
    requires forall i :: 0 <= i < |t| ==> !IsSpace(t[i])
    ensures NonSpace(t) == t
  {
    if t != [] {
      NonSpaceOfToken(t[1..]);
    }
  }

  /** Nothing but whitespace is dropped, and the tokens keep their left-to-right order:
      the tokens concatenate to the non-whitespace characters of the input. */
  lemma {:induction false} SplitKeepsNonSpace(s: string)
    ensures Concat(SplitAtWs(s)) == NonSpace(s)
    decreases |s|
  {
    if s == [] {
    } else if IsSpace(s[0]) {
      SplitKeepsNonSpace(s[1..]);
    } else {
      var n := RunLength(s);
      SplitKeepsNonSpace(s[n..]);
      var ts := SplitAtWs(s);
      assert ts[0] == s[..n] && ts[1..] == SplitAtWs(s[n..]);
      assert s == s[..n] + s[n..];
      NonSpaceAppend(s[..n], s[n..]);
      NonSpaceOfToken(s[..n]);
    }
  }

  /** An input yields no tokens exactly when it is empty or all whitespace. */
  lemma {:induction false} NoTokensIffBlank(s: string)
    ensures SplitAtWs(s) == [] <==> forall i :: 0 <= i < |s| ==> IsSpace(s[i])
    decreases |s|
  {
    if s != [] {
      NoTokensIffBlank(s[1..]);
      if IsSpace(s[0]) {
        assert forall i :: 1 <= i < |s| ==> s[i] == s[1..][i - 1];
      }
    }
  }

  /** Leading whitespace makes no difference. */
  lemma {:induction false} SplitSkipsSpace(w: string, s: string)
    requires forall i :: 0 <= i < |w| ==> IsSpace(w[i])
    ensures SplitAtWs(w + s) == SplitAtWs(s)
    decreases |w|
  {
    if w != [] {
      assert (w + s)[1..] == w[1..] + s;
      SplitSkipsSpace(w[1..], s);
    } else {
      assert w + s == s;
    }
  }

  /** Splitting tokens joined by single spaces gives back the tokens. */
  lemma {:induction false} SplitJoinRoundTrip(ts: seq<string>)
    requires forall k :: 0 <= k < |ts| ==> IsToken(ts[k])
    ensures SplitAtWs(JoinWithSpaces(ts)) == ts
    decreases |ts|
  {
    if |ts| == 1 {
      SplitToken(ts[0], []);
      assert ts[0] + [] == ts[0];
    } else if |ts| > 1 {
      var rest := JoinWithSpaces(ts[1..]);
      assert JoinWithSpaces(ts) == ts[0] + (" " + rest);
      SplitJoinRoundTrip(ts[1..]);
      SplitToken(ts[0], " " + rest);
      SplitSkipsSpace([' '], rest);
      assert [ts[0]] + ts[1..] == ts;
    }
  }

  /** A token followed by nothing or by whitespace is read whole, and reading goes on
      at the whitespace. */
  lemma SplitToken(t: string, rest: string)
    requires IsToken(t) && (rest == [] || IsSpace(rest[0]))
    ensures SplitAtWs(t + rest) == [t] + SplitAtWs(rest)
  {
    var s := t + rest;
    assert RunLength(s) == |t| by {
      if rest == [] {
        assert s == t;
      } else {
        RunLengthOfPrefix(t, rest);
      }
    }
    assert s[..|t|] == t && s[|t|..] == rest;
  }

  /** A whitespace-free prefix followed by whitespace is exactly the first run. */
  lemma {:induction false} RunLengthOfPrefix(t: string, rest: string)
    requires forall i :: 0 <= i < |t| ==> !IsSpace(t[i])
    requires rest != [] && IsSpace(rest[0])
    ensures RunLength(t + rest) == |t|
    decreases |t|
  {
    if t != [] {
      assert (t + rest)[1..] == t[1..] + rest;
      RunLengthOfPrefix(t[1..], rest);
    } else {
      assert t + rest == rest;
    }
  }
}

/** `split` of strings.hpp: the maximal runs of characters other than a
    delimiter, in order. */
module Strings {

  /** Length of the leading run of characters of `s` other than `d`. */
  function RunEnd(s: string, d: char): (k: nat)
    ensures k <= |s|
    ensures forall i :: 0 <= i < k ==> s[i] != d
    ensures k < |s| ==> s[k] == d
  {
    if |s| == 0 || s[0] == d then 0 else 1 + RunEnd(s[1..], d)
  }

  /** The tokens of `s`: one per maximal run of non-`d` characters,
      left to right. This is the reference `Split` is proved against. */
  function Tokens(s: string, d: char): seq<string>
    decreases |s|
  {
    if |s| == 0 then []
    else if s[0] == d then Tokens(s[1..], d)
    else
      var k := RunEnd(s, d);
      [s[..k]] + Tokens(s[k..], d)
  }

  /** `s` with every `d` removed. */
  function Remove(s: string, d: char): (r: string)
    ensures |r| <= |s|
  {
    if |s| == 0 then [] else (if s[0] == d then [] else [s[0]]) + Remove(s[1..], d)
  }

  /** The concatenation of a sequence of strings. */
  function Concat(ts: seq<string>): string {
    if |ts| == 0 then [] else ts[0] + Concat(ts[1..])
  }

  /** split(s, delim): scans `s` once, collecting non-delimiter characters
      in a buffer that is flushed, when not empty, at each delimiter and at
      the end. The delimiter defaults to a space. */
  method Split(s: string, delim: char := ' ') returns (ret: seq<string>)
    ensures ret == Tokens(s, delim)
  {
    ret := [];
    var buffer: string := [];
    assert buffer + s[0..] == s;
    for i := 0 to |s|
      invariant delim !in buffer
      invariant ret + Tokens(buffer + s[i..], delim) == Tokens(s, delim)
    {
      Step(s, i, buffer, delim);
      if s[i] == delim {
        if |buffer| > 0 {
          Assoc(ret, [buffer], Tokens([] + s[i + 1..], delim));
          ret := ret + [buffer];
          buffer := [];
        }
      } else {
        buffer := buffer + [s[i]];
      }
    }
    assert s[|s|..] == [] && buffer + [] == buffer;
    if |buffer| > 0 {
      FlushAtEnd(buffer, delim);
      ret := ret + [buffer];
    }
  }

  /** One character of the scan: a delimiter flushes the pending run, if
      any; any other character extends it. */
  lemma Step(s: string, i: nat, b: string, d: char)
    requires i < |s| && d !in b
    ensures s[i] == d ==> Tokens(b + s[i..], d) == (if |b| > 0 then [b] else []) + Tokens([] + s[i + 1..], d)
    ensures s[i] != d ==> Tokens(b + s[i..], d) == Tokens((b + [s[i]]) + s[i + 1..], d)
  {
    var rest := s[i + 1..];
    assert s[i..] == [s[i]] + rest;
    assert [] + rest == rest;
    if s[i] == d {
      assert b + s[i..] == b + [d] + rest;
      if |b| > 0 {
        FlushAtDelim(b, rest, d);
      } else {
        assert b + [d] + rest == [d] + rest;
        assert ([d] + rest)[1..] == rest;
      }
    } else {
      assert b + s[i..] == (b + [s[i]]) + rest;
    }
  }

  lemma Assoc<T>(x: seq<T>, y: seq<T>, z: seq<T>)
    ensures x + (y + z) == (x + y) + z
  {
  }

  /** A pending non-empty run ends at the next delimiter. */
  lemma FlushAtDelim(b: string, rest: string, d: char)
    requires |b| > 0 && d !in b
    ensures Tokens(b + [d] + rest, d) == [b] + Tokens(rest, d)
  {
    var s := b + [d] + rest;
    var k := RunEnd(s, d);
    assert s[|b|] == d;
    assert k == |b|;
    assert s[..k] == b;
    assert s[k..] == [d] + rest;
    assert ([d] + rest)[1..] == rest;
  }

  /** A non-empty run at the end is the last token. */
  lemma FlushAtEnd(b: string, d: char)
    requires |b| > 0 && d !in b
    ensures Tokens(b, d) == [b]
  {
    var k := RunEnd(b, d);
    assert k == |b|;
    assert b[..k] == b && b[k..] == [];
  }

  /** Every token is non-empty. */
  lemma {:induction false} TokensNonEmpty(s: string, d: char)
    ensures forall t :: t in Tokens(s, d) ==> |t| > 0
    decreases |s|
  {
    if |s| > 0 {
      if s[0] == d {
        TokensNonEmpty(s[1..], d);
      } else {
        TokensNonEmpty(s[RunEnd(s, d)..], d);
      }
    }
  }

  /** No token contains the delimiter. */
  lemma {:induction false} TokensNoDelim(s: string, d: char)
    ensures forall t :: t in Tokens(s, d) ==> d !in t
    decreases |s|
  {
    if |s| > 0 {
      if s[0] == d {
        TokensNoDelim(s[1..], d);
      } else {
        var k := RunEnd(s, d);
        TokensNoDelim(s[k..], d);
        assert forall i :: 0 <= i < k ==> s[..k][i] == s[i];
      }
    }
  }

  lemma {:induction false} RemoveConcat(x: string, y: string, d: char)
    ensures Remove(x + y, d) == Remove(x, d) + Remove(y, d)
    decreases |x|
  {
    if |x| > 0 {
      assert (x + y)[1..] == x[1..] + y;
      RemoveConcat(x[1..], y, d);
    } else {
      assert x + y == y;
    }
  }

  lemma {:induction false} RemoveNone(x: string, d: char)
    requires d !in x
    ensures Remove(x, d) == x
    decreases |x|
  {
    if |x| > 0 {
      assert x[1..] == x[1..] && d !in x[1..];
      RemoveNone(x[1..], d);
      assert [x[0]] + x[1..] == x;
    }
  }

  /** The tokens, concatenated, are `s` with its delimiters removed. */
  lemma {:induction false} TokensConcat(s: string, d: char)
    ensures Concat(Tokens(s, d)) == Remove(s, d)
    decreases |s|
  {
    if |s| > 0 {
      if s[0] == d {
        TokensConcat(s[1..], d);
      } else {
        var k := RunEnd(s, d);
        TokensConcat(s[k..], d);
        var ts := [s[..k]] + Tokens(s[k..], d);
        assert ts[0] == s[..k] && ts[1..] == Tokens(s[k..], d);
        assert s == s[..k] + s[k..];
        RemoveConcat(s[..k], s[k..], d);
        assert forall i :: 0 <= i < k ==> s[..k][i] == s[i];
        RemoveNone(s[..k], d);
      }
    }
  }

  /** A string without delimiters is a single token (none when empty), and
      adding delimiters at either end adds nothing. */
  lemma PaddedRun(b: string, d: char)
    requires d !in b
    ensures Tokens([d] + b + [d], d) == (if |b| == 0 then [] else [b])
  {
    var s := [d] + b + [d];
    assert s[1..] == b + [d] + [];
    if |b| > 0 {
      FlushAtDelim(b, [], d);
    } else {
      assert s[1..] == [d];
      assert s[1..][1..] == [];
    }
  }
}

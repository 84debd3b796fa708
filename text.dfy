/** The JavaScript string operations the OBJ front-end relies on:
    `split` on a character, `split(/\s+/)`, `startsWith` and `parseInt`. */
module JsText {
  import opened JsValues

  /** The characters the regular-expression class `\s` matches (and that
      `parseInt` trims): ECMAScript WhiteSpace and LineTerminator. */
  predicate IsSpace(c: char) {
    var k := c as int;
    (0x09 <= k <= 0x0D) || k == 0x20 || k == 0xA0 || k == 0x1680 ||
    (0x2000 <= k <= 0x200A) || k == 0x2028 || k == 0x2029 || k == 0x202F ||
    k == 0x205F || k == 0x3000 || k == 0xFEFF
  }

  predicate NoSpace(s: string) {
    forall k :: 0 <= k < |s| ==> !IsSpace(s[k])
  }

  predicate StartsWith(s: string, prefix: string) {
    |prefix| <= |s| && s[..|prefix|] == prefix
  }

  // ---------------------------------------------------------------------------
  // s.split(c) for a one-character separator

  /** `s.split(sep)`: the pieces between the occurrences of `sep`, empty pieces
      included, so `"a\n\nb"` gives three pieces and `""` gives one. */
  function SplitChar(s: string, sep: char): (r: seq<string>)
    ensures |r| >= 1
    decreases |s|
  {
    if |s| == 0 then [""]
    else
      var rest := SplitChar(s[1..], sep);
      if s[0] == sep then [""] + rest else [[s[0]] + rest[0]] + rest[1..]
  }

  /** `pieces.join(sep)`. */
  function Join(pieces: seq<string>, sep: char): string
    requires |pieces| >= 1
    decreases |pieces|
  {
    if |pieces| == 1 then pieces[0] else pieces[0] + [sep] + Join(pieces[1..], sep)
  }

  /** Splitting loses nothing: joining the pieces back gives the text, and no
      piece contains the separator. */
  lemma {:induction false} SplitCharJoin(s: string, sep: char)
    ensures Join(SplitChar(s, sep), sep) == s
    ensures forall k :: 0 <= k < |SplitChar(s, sep)| ==> sep !in SplitChar(s, sep)[k]
    decreases |s|
  {
    if |s| > 0 {
      SplitCharJoin(s[1..], sep);
      var rest := SplitChar(s[1..], sep);
      if s[0] == sep {
        assert SplitChar(s, sep) == [""] + rest;
        assert ([""] + rest)[1..] == rest;
      } else {
        var r := SplitChar(s, sep);
        assert r == [[s[0]] + rest[0]] + rest[1..];
        if |rest| == 1 {
          assert Join(r, sep) == [s[0]] + rest[0];
        } else {
          assert r[1..] == rest[1..];
          assert Join(rest, sep) == rest[0] + [sep] + Join(rest[1..], sep);
          assert Join(r, sep) == [s[0]] + rest[0] + [sep] + Join(rest[1..], sep);
        }
        assert s == [s[0]] + s[1..];
        forall k | 0 <= k < |r| ensures sep !in r[k] {
          if k > 0 { assert r[k] == rest[k]; }
        }
      }
    }
  }

  /** The first piece of `s.split(sep)` is the text before the first `sep`
      (all of `s` when there is none). */
  lemma {:induction false} SplitCharFirst(p: string, sep: char, rest: string)
    requires sep !in p
    requires rest == [] || rest[0] == sep
    ensures SplitChar(p + rest, sep)[0] == p
    decreases |p|
  {
    if |p| == 0 {
      assert p + rest == rest;
    } else {
      SplitCharFirst(p[1..], sep, rest);
      assert (p + rest)[1..] == p[1..] + rest;
      assert p == [p[0]] + p[1..];
    }
  }

  // ---------------------------------------------------------------------------
  // s.split(/\s+/)

  /** `s.split(/\s+/)`: the pieces between maximal runs of white space. A run at
      the start or the end leaves an empty piece there (`" a "` gives
      `["", "a", ""]`), and `""` gives `[""]`. */
  function SplitWs(s: string): (r: seq<string>)
    ensures |r| >= 1
    decreases |s|
  {
    if |s| == 0 then [""]
    else if IsSpace(s[0]) then
      if |s| > 1 && IsSpace(s[1]) then SplitWs(s[1..]) else [""] + SplitWs(s[1..])
    else
      var rest := SplitWs(s[1..]);
      [[s[0]] + rest[0]] + rest[1..]
  }

  /** No piece of `s.split(/\s+/)` contains white space. */
  lemma {:induction false} SplitWsNoSpace(s: string)
    ensures forall k :: 0 <= k < |SplitWs(s)| ==> NoSpace(SplitWs(s)[k])
    decreases |s|
  {
    if |s| > 0 {
      SplitWsNoSpace(s[1..]);
      var rest := SplitWs(s[1..]);
      if !IsSpace(s[0]) {
        var r := SplitWs(s);
        forall k | 0 <= k < |r| ensures NoSpace(r[k]) {
          if k == 0 {
            assert r[0] == [s[0]] + rest[0];
            assert NoSpace(rest[0]);
          } else {
            assert r[k] == rest[k];
          }
        }
      } else if !(|s| > 1 && IsSpace(s[1])) {
        var r := SplitWs(s);
        forall k | 0 <= k < |r| ensures NoSpace(r[k]) {
          if k > 0 { assert r[k] == rest[k - 1]; }
        }
      }
    }
  }

  /** A word glued to what follows becomes the head of the first piece. */
  lemma {:induction false} SplitWsWord(w: string, t: string)
    requires NoSpace(w)
    ensures |SplitWs(w + t)| == |SplitWs(t)|
    ensures SplitWs(w + t) == [w + SplitWs(t)[0]] + SplitWs(t)[1..]
    decreases |w|
  {
    if |w| == 0 {
      assert w + t == t;
      assert w + SplitWs(t)[0] == SplitWs(t)[0];
      assert SplitWs(t) == [SplitWs(t)[0]] + SplitWs(t)[1..];
    } else {
      SplitWsWord(w[1..], t);
      var rest := SplitWs(w[1..] + t);
      assert (w + t)[1..] == w[1..] + t;
      assert (w + t)[0] == w[0] && !IsSpace(w[0]);
      assert SplitWs(w + t) == [[w[0]] + rest[0]] + rest[1..];
      assert rest[0] == w[1..] + SplitWs(t)[0];
      assert rest[1..] == SplitWs(t)[1..];
      assert [w[0]] + (w[1..] + SplitWs(t)[0]) == w + SplitWs(t)[0];
    }
  }

  /** Tokens joined by single spaces are split back into the same tokens. */
  lemma {:induction false} SplitWsJoin(ts: seq<string>)
    requires |ts| >= 1
    requires forall k :: 0 <= k < |ts| ==> |ts[k]| > 0 && NoSpace(ts[k])
    ensures SplitWs(Join(ts, ' ')) == ts
    decreases |ts|
  {
    if |ts| == 1 {
      SplitWsWord(ts[0], "");
      assert ts[0] + "" == ts[0];
    } else {
      var tail := Join(ts[1..], ' ');
      SplitWsJoin(ts[1..]);
      assert ts[1][0] == tail[0] by {
        JoinStartsWithHead(ts[1..]);
      }
      var u := [' '] + tail;
      assert u[1..] == tail;
      assert SplitWs(u) == [""] + SplitWs(tail);
      SplitWsWord(ts[0], u);
      assert ts[0] + [' '] + tail == ts[0] + u;
      assert ts[0] + "" == ts[0];
      assert ts == [ts[0]] + ts[1..];
    }
  }

  lemma {:induction false} JoinStartsWithHead(ts: seq<string>)
    requires |ts| >= 1 && |ts[0]| > 0
    ensures |Join(ts, ' ')| > 0 && Join(ts, ' ')[0] == ts[0][0]
  {
  }

  // ---------------------------------------------------------------------------
  // parseInt(s) with no radix argument

  predicate IsDigitIn(c: char, radix: nat) {
    if radix == 16 then '0' <= c <= '9' || 'a' <= c <= 'f' || 'A' <= c <= 'F'
    else '0' <= c <= '9'
  }

  function DigitValue(c: char): nat {
    if '0' <= c <= '9' then c as nat - '0' as nat
    else if 'a' <= c <= 'f' then c as nat - 'a' as nat + 10
    else if 'A' <= c <= 'F' then c as nat - 'A' as nat + 10
    else 0
  }

  /** The longest prefix of `s` made of digits of the radix. */
  function DigitPrefix(s: string, radix: nat): (d: string)
    decreases |s|
  {
    if |s| == 0 || !IsDigitIn(s[0], radix) then "" else [s[0]] + DigitPrefix(s[1..], radix)
  }

  /** The number the digit string denotes, most significant digit first. */
  function DigitsValue(d: string, radix: nat): nat
    decreases |d|
  {
    if |d| == 0 then 0 else DigitsValue(d[..|d| - 1], radix) * radix + DigitValue(d[|d| - 1])
  }

  function TrimStart(s: string): (t: string)
    decreases |s|
  {
    if |s| > 0 && IsSpace(s[0]) then TrimStart(s[1..]) else s
  }

  /** `parseInt(s)`: leading white space is skipped, then an optional sign, then
      a `0x`/`0X` prefix switches to base 16; the value is that of the longest
      run of digits that follows, and NaN when there is none. */
  function ParseInt(s: string): (r: Value)
    ensures !r.Undefined?
  {
    var t := TrimStart(s);
    var sign := if |t| > 0 && t[0] == '-' then -1 else 1;
    var u := if |t| > 0 && (t[0] == '-' || t[0] == '+') then t[1..] else t;
    var hex := |u| >= 2 && u[0] == '0' && (u[1] == 'x' || u[1] == 'X');
    var radix := if hex then 16 else 10;
    var digits := DigitPrefix(if hex then u[2..] else u, radix);
    if |digits| == 0 then NaN else Num(sign * DigitsValue(digits, radix))
  }

  predicate IsDecimal(d: string) {
    |d| > 0 && forall k :: 0 <= k < |d| ==> '0' <= d[k] <= '9'
  }

  /** A run of decimal digits, followed by nothing or by a character that is
      neither a digit nor `x`/`X`, parses to its decimal value. */
  lemma ParseIntDecimal(d: string, rest: string)
    requires IsDecimal(d)
    requires rest == [] || !('0' <= rest[0] <= '9' || rest[0] == 'x' || rest[0] == 'X')
    ensures ParseInt(d + rest) == Num(DigitsValue(d, 10))
  {
    var s := d + rest;
    assert TrimStart(s) == s by {
      assert s[0] == d[0];
    }
    assert s[0] == d[0];
    assert !(|s| >= 2 && s[0] == '0' && (s[1] == 'x' || s[1] == 'X')) by {
      if |s| >= 2 && s[0] == '0' {
        if |d| >= 2 { assert s[1] == d[1]; } else { assert s[1] == rest[0]; }
      }
    }
    DigitPrefixOfDecimal(d, rest);
  }

  lemma {:induction false} DigitPrefixOfDecimal(d: string, rest: string)
    requires forall k :: 0 <= k < |d| ==> '0' <= d[k] <= '9'
    requires rest == [] || !('0' <= rest[0] <= '9')
    ensures DigitPrefix(d + rest, 10) == d
    decreases |d|
  {
    if |d| == 0 {
      assert d + rest == rest;
    } else {
      DigitPrefixOfDecimal(d[1..], rest);
      assert (d + rest)[1..] == d[1..] + rest;
      assert d == [d[0]] + d[1..];
    }
  }

  /** A string that does not start with a sign or a digit (after white space)
      is not a number. */
  lemma ParseIntNaN(s: string)
    requires |s| == 0 || !('0' <= s[0] <= '9' || s[0] == '+' || s[0] == '-' || IsSpace(s[0]))
    ensures ParseInt(s) == NaN
  {
  }
}

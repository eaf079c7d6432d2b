/**
 * Text helpers of the debug-line reader: `split` on single spaces, the digit
 * parsing of `strtoul`, `StringRef::split('_')`, `endswith` and `contains`.
 */
module Text {
  import opened Ints

  // ---------------------------------------------------------------------
  // split(str): std::getline with delimiter ' ' over an istringstream
  // ---------------------------------------------------------------------

  /**
   * The tokens still to come when `tok` has been read since the last space
   * and `rest` is unread. `getline` fails on an exhausted stream, so a
   * token that would be empty at the very end is not produced.
   */
  function TokensFrom(tok: string, rest: string): seq<string>
    decreases |rest|
  {
    if rest == [] then (if tok == [] then [] else [tok])
    else if rest[0] == ' ' then [tok] + TokensFrom([], rest[1..])
    else TokensFrom(tok + [rest[0]], rest[1..])
  }

  /** The result of `split(s)`. */
  function Tokens(s: string): seq<string>
  {
    TokensFrom([], s)
  }

  /** Tokens glued back together with single spaces. */
  function Join(ts: seq<string>): string
  {
    if ts == [] then []
    else if |ts| == 1 then ts[0]
    else ts[0] + " " + Join(ts[1..])
  }

  /** `s` without one trailing space, if it has one. */
  function DropTrailingSpace(s: string): string
  {
    if s != [] && s[|s| - 1] == ' ' then s[..|s| - 1] else s
  }

  /** `split` builds its vector left to right with `push_back`. */
  method Split(s: string) returns (out: seq<string>)
    ensures out == Tokens(s)
  {
    out := [];
    var tok: string := [];
    var i := 0;
    while i < |s|
      invariant 0 <= i <= |s|
      invariant out + TokensFrom(tok, s[i..]) == Tokens(s)
    {
      assert s[i..][1..] == s[i + 1..];
      if s[i] == ' ' {
        out := out + [tok];
        tok := [];
      } else {
        tok := tok + [s[i]];
      }
      i := i + 1;
    }
    if tok != [] {
      out := out + [tok];
    }
  }

  lemma {:induction false} TokensFromEmpty(tok: string, rest: string)
    ensures TokensFrom(tok, rest) == [] <==> tok == [] && rest == []
    decreases |rest|
  {
    if rest != [] && rest[0] != ' ' {
      TokensFromEmpty(tok + [rest[0]], rest[1..]);
    }
  }

  lemma {:induction false} TokensFromNoSpace(tok: string, rest: string)
    requires ' ' !in tok
    ensures forall i :: 0 <= i < |TokensFrom(tok, rest)| ==> ' ' !in TokensFrom(tok, rest)[i]
    decreases |rest|
  {
    if rest == [] {
    } else if rest[0] == ' ' {
      TokensFromNoSpace([], rest[1..]);
    } else {
      TokensFromNoSpace(tok + [rest[0]], rest[1..]);
    }
  }

  lemma DropTrailingSpaceAppend(a: string, b: string)
    requires b != []
    ensures DropTrailingSpace(a + b) == a + DropTrailingSpace(b)
  {
    assert (a + b)[|a + b| - 1] == b[|b| - 1];
    if b[|b| - 1] == ' ' {
      assert (a + b)[..|a + b| - 1] == a + b[..|b| - 1];
    }
  }

  lemma JoinCons(t: string, ts: seq<string>)
    requires ts != []
    ensures Join([t] + ts) == t + " " + Join(ts)
  {
    assert ([t] + ts)[1..] == ts;
  }

  lemma NoTrailingSpace(tok: string)
    requires ' ' !in tok
    ensures DropTrailingSpace(tok) == tok
  {
    if tok != [] {
      assert tok[|tok| - 1] in tok;
    }
  }

  lemma {:induction false} TokensFromJoin(tok: string, rest: string)
    requires ' ' !in tok
    ensures Join(TokensFrom(tok, rest)) == DropTrailingSpace(tok + rest)
    decreases |rest|
  {
    if rest == [] {
      assert tok + rest == tok;
      NoTrailingSpace(tok);
    } else if rest[0] == ' ' {
      TokensFromSpace(tok, rest);
    } else {
      TokensFromJoin(tok + [rest[0]], rest[1..]);
      assert tok + [rest[0]] + rest[1..] == tok + rest;
    }
  }

  lemma {:induction false} TokensFromSpace(tok: string, rest: string)
    requires ' ' !in tok
    requires rest != [] && rest[0] == ' '
    ensures Join(TokensFrom(tok, rest)) == DropTrailingSpace(tok + rest)
    decreases |rest|, 0
  {
    var tail := rest[1..];
    var more := TokensFrom([], tail);
    assert TokensFrom(tok, rest) == [tok] + more;
    assert tok + rest == (tok + " ") + tail;
    if tail == [] {
      assert (tok + " ")[..|tok|] == tok;
    } else {
      TokensFromEmpty([], tail);
      TokensFromJoin([], tail);
      JoinCons(tok, more);
      assert [] + tail == tail;
      DropTrailingSpaceAppend(tok + " ", tail);
    }
  }

  /**
   * `split` drops the spaces and nothing else: no token holds a space, only
   * the empty line has no tokens, and joining the tokens with single spaces
   * gives back the line without one trailing space.
   */
  lemma TokensRoundTrip(s: string)
    ensures forall i :: 0 <= i < |Tokens(s)| ==> ' ' !in Tokens(s)[i]
    ensures Tokens(s) == [] <==> s == []
    ensures Join(Tokens(s)) == DropTrailingSpace(s)
    ensures s == [] || s[|s| - 1] != ' ' ==> Join(Tokens(s)) == s
  {
    TokensFromNoSpace([], s);
    TokensFromEmpty([], s);
    TokensFromJoin([], s);
    assert [] + s == s;
  }

  /** A word without spaces is read into the current token whole. */
  lemma {:induction false} TokensFromWord(tok: string, w: string, rest: string)
    requires ' ' !in w
    ensures TokensFrom(tok, w + rest) == TokensFrom(tok + w, rest)
    decreases |w|
  {
    if w != [] {
      assert (w + rest)[1..] == w[1..] + rest;
      TokensFromWord(tok + [w[0]], w[1..], rest);
      assert tok + [w[0]] + w[1..] == tok + w;
    } else {
      assert tok + w == tok && w + rest == rest;
    }
  }

  /**
   * The other direction of the round trip: non-empty words without spaces,
   * joined with single spaces, split back into the same words.
   */
  lemma {:induction false} TokensJoin(ts: seq<string>)
    requires forall i :: 0 <= i < |ts| ==> ts[i] != [] && ' ' !in ts[i]
    ensures Tokens(Join(ts)) == ts
    decreases |ts|
  {
    if |ts| == 1 {
      TokensFromWord([], ts[0], []);
      assert ts[0] + [] == ts[0] && [] + ts[0] == ts[0];
    } else if |ts| > 1 {
      var tail := Join(ts[1..]);
      assert ts[0] + " " + tail == ts[0] + (" " + tail);
      TokensFromWord([], ts[0], " " + tail);
      assert [] + ts[0] == ts[0];
      assert (" " + tail)[1..] == tail;
      TokensJoin(ts[1..]);
      assert [ts[0]] + ts[1..] == ts;
    }
  }

  // ---------------------------------------------------------------------
  // strtoul(s, nullptr, base): the digit prefix, saturating at ULONG_MAX
  // ---------------------------------------------------------------------

  /** The value of a digit character, 36 for anything that is not one. */
  function DigitValue(c: char): nat
  {
    if '0' <= c <= '9' then c as nat - '0' as nat
    else if 'a' <= c <= 'z' then c as nat - 'a' as nat + 10
    else if 'A' <= c <= 'Z' then c as nat - 'A' as nat + 10
    else 36
  }

  predicate IsDigit(c: char, base: nat)
  {
    DigitValue(c) < base
  }

  /** The longest prefix of `s` made of digits of `base`. */
  function DigitPrefix(s: string, base: nat): (ds: string)
    ensures forall i :: 0 <= i < |ds| ==> IsDigit(ds[i], base)
  {
    if s == [] || !IsDigit(s[0], base) then [] else [s[0]] + DigitPrefix(s[1..], base)
  }

  /** The number a string of digits denotes, most significant digit first. */
  function DigitsValue(ds: string, base: nat): nat
    requires forall i :: 0 <= i < |ds| ==> IsDigit(ds[i], base)
  {
    if ds == [] then 0
    else DigitsValue(ds[..|ds| - 1], base) * base + DigitValue(ds[|ds| - 1])
  }

  /**
   * `strtoul(s, nullptr, base)` for a string that starts with its digits: the
   * value of the digit prefix (0 when there is none), `ULONG_MAX` when out of range.
   */
  function StrToUL(s: string, base: nat): (r: u64)
    requires 2 <= base <= 16
  {
    var v := DigitsValue(DigitPrefix(s, base), base);
    if v > U64_MAX then U64_MAX else v
  }

  /** The two numbers of the address line `b 10 1a`. */
  lemma StrToULExample()
    ensures StrToUL("1a", 16) == 0x1a && StrToUL("10", 10) == 10
  {
    DigitPrefixStops("1a", [], 16);
    DigitPrefixStops("10", [], 10);
    assert "1a" + [] == "1a" && "1a"[..1] == "1" && "10" + [] == "10" && "10"[..1] == "1" && "1"[..0] == [];
  }

  /** A lower-case hexadecimal digit. */
  function HexChar(d: nat): char
    requires d < 16
  {
    if d < 10 then ('0' as int + d) as char else ('a' as int + d - 10) as char
  }

  /** `n` written in lower-case hexadecimal without leading zeros. */
  function HexString(n: nat): (s: string)
    ensures s != []
  {
    if n < 16 then [HexChar(n)] else HexString(n / 16) + [HexChar(n % 16)]
  }

  lemma {:induction false} HexStringValue(n: nat)
    ensures forall i :: 0 <= i < |HexString(n)| ==> IsDigit(HexString(n)[i], 16)
    ensures DigitsValue(HexString(n), 16) == n
  {
    var s := HexString(n);
    if n < 16 {
      assert s[..|s| - 1] == [];
    } else {
      HexStringValue(n / 16);
      assert s[..|s| - 1] == HexString(n / 16);
      forall i | 0 <= i < |s| ensures IsDigit(s[i], 16) {
        if i < |s| - 1 { assert s[i] == HexString(n / 16)[i]; }
      }
    }
  }

  lemma {:induction false} DigitPrefixStops(a: string, rest: string, base: nat)
    requires forall i :: 0 <= i < |a| ==> IsDigit(a[i], base)
    requires rest == [] || !IsDigit(rest[0], base)
    ensures DigitPrefix(a + rest, base) == a
  {
    if a == [] {
      assert a + rest == rest;
    } else {
      assert (a + rest)[0] == a[0];
      assert (a + rest)[1..] == a[1..] + rest;
      DigitPrefixStops(a[1..], rest, base);
      assert [a[0]] + a[1..] == a;
    }
  }

  /** `strtoul` with base 16 reads back what `HexString` wrote, up to the first non-digit. */
  lemma StrToULHex(n: nat, rest: string)
    requires n <= U64_MAX
    requires rest == [] || !IsDigit(rest[0], 16)
    ensures StrToUL(HexString(n) + rest, 16) == n
  {
    HexStringValue(n);
    DigitPrefixStops(HexString(n), rest, 16);
  }

  // ---------------------------------------------------------------------
  // StringRef::split(c).second, endswith, contains
  // ---------------------------------------------------------------------

  /** The text after the first `c` in `s`; empty when `s` has no `c`. */
  function AfterFirst(s: string, c: char): string
  {
    if s == [] then []
    else if s[0] == c then s[1..]
    else AfterFirst(s[1..], c)
  }

  lemma {:induction false} AfterFirstOf(p: string, c: char, q: string)
    requires c !in p
    ensures AfterFirst(p + [c] + q, c) == q
  {
    if p == [] {
      assert p + [c] + q == [c] + q;
    } else {
      assert (p + [c] + q)[1..] == p[1..] + [c] + q;
      assert p[0] in p;
      AfterFirstOf(p[1..], c, q);
    }
  }

  lemma {:induction false} AfterFirstAbsent(s: string, c: char)
    requires c !in s
    ensures AfterFirst(s, c) == []
  {
    if s != [] {
      assert s[0] in s;
      assert forall i :: 0 <= i < |s[1..]| ==> s[1..][i] == s[i + 1];
      AfterFirstAbsent(s[1..], c);
    }
  }

  /** `StringRef::endswith(suffix)`. */
  predicate IsSuffix(suffix: string, s: string)
  {
    |suffix| <= |s| && s[|s| - |suffix|..] == suffix
  }

  /** `StringRef::contains(sub)`. */
  predicate Contains(s: string, sub: string)
  {
    (|sub| <= |s| && s[..|sub|] == sub) || (s != [] && Contains(s[1..], sub))
  }
}

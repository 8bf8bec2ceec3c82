/** WireGuard keys. A parsed key is represented by the text its String method prints. */
module Keys {
  import opened Base

  /** The six bits one character of the standard base64 alphabet (section 4 of RFC 4648) stands for. */
  function Sextet(c: char): (v: Option<nat>)
    ensures v.Some? ==> v.value < 64 && c != '\n' && c != '\r'
  {
    if 'A' <= c <= 'Z' then Some((c - 'A') as nat)
    else if 'a' <= c <= 'z' then Some(26 + (c - 'a') as nat)
    else if '0' <= c <= '9' then Some(52 + (c - '0') as nat)
    else if c == '+' then Some(62)
    else if c == '/' then Some(63)
    else None
  }

  function Symbol(v: nat): (c: char)
    requires v < 64
    ensures Sextet(c) == Some(v)
  {
    if v < 26 then 'A' + v as char
    else if v < 52 then 'a' + (v - 26) as char
    else if v < 62 then '0' + (v - 52) as char
    else if v == 62 then '+'
    else '/'
  }

  /** 32 bytes print as 43 symbols and one pad; the last symbol's two low bits are unused and print as zero. */
  predicate Canonical(s: string) {
    && |s| == 44
    && s[43] == '='
    && (forall i :: 0 <= i < 43 ==> Sextet(s[i]).Some?)
    && Sextet(s[42]).value % 4 == 0
  }

  /** A parsed key, given by its canonical text. */
  type Key = string

  /** The decoder skips line breaks wherever they stand. */
  function WithoutLineBreaks(s: string): (r: string)
    ensures forall c :: c in r ==> c in s && c != '\n' && c != '\r'
  {
    if s == [] then []
    else if s[0] == '\n' || s[0] == '\r' then WithoutLineBreaks(s[1..])
    else [s[0]] + WithoutLineBreaks(s[1..])
  }

  /** ParseKey: the decoder ignores line breaks and the two unused bits of the last symbol. */
  function ParseKey(text: string): (r: Option<Key>)
    ensures r.Some? ==> Canonical(r.value)
  {
    var s := WithoutLineBreaks(text);
    if |s| == 44 && s[43] == '=' && (forall i :: 0 <= i < 43 ==> Sextet(s[i]).Some?) then
      var last := Sextet(s[42]).value;
      Some(s[..42] + [Symbol(last - last % 4)] + "=")
    else
      None
  }

  lemma {:induction false} NothingToSkip(s: string)
    requires forall i :: 0 <= i < |s| ==> s[i] != '\n' && s[i] != '\r'
    ensures WithoutLineBreaks(s) == s
  {
    if s != [] {
      NothingToSkip(s[1..]);
    }
  }

  lemma {:induction false} SkipDistributes(s: string, t: string)
    ensures WithoutLineBreaks(s + t) == WithoutLineBreaks(s) + WithoutLineBreaks(t)
  {
    if s == [] {
      assert s + t == t;
    } else {
      assert (s + t)[1..] == s[1..] + t;
      SkipDistributes(s[1..], t);
    }
  }

  lemma SymbolOfSextet(c: char)
    requires Sextet(c).Some?
    ensures Symbol(Sextet(c).value) == c
  {
  }

  lemma CanonicalHasNoBreaks(k: Key)
    requires Canonical(k)
    ensures WithoutLineBreaks(k) == k
  {
    NothingToSkip(k);
  }

  /** Printing and parsing again is the identity. */
  lemma ParsePrinted(k: Key)
    requires Canonical(k)
    ensures ParseKey(k) == Some(k)
  {
    CanonicalHasNoBreaks(k);
    SymbolOfSextet(k[42]);
    assert k == k[..42] + [k[42]] + "=";
  }

  /**
   * Two texts parse to one key exactly if, line breaks aside, their first 42 symbols are equal and the next ones agree
   * in the four bits that count.
   */
  lemma SameKeyExactly(s: string, t: string)
    requires ParseKey(s).Some? && ParseKey(t).Some?
    ensures var a, b := WithoutLineBreaks(s), WithoutLineBreaks(t);
            |a| == |b| == 44 && Sextet(a[42]).Some? && Sextet(b[42]).Some? &&
            (ParseKey(s) == ParseKey(t) <==> a[..42] == b[..42] && Sextet(a[42]).value / 4 == Sextet(b[42]).value / 4)
  {
    var a, b := WithoutLineBreaks(s), WithoutLineBreaks(t);
    var x, y := ParseKey(s).value, ParseKey(t).value;
    assert x[..42] == a[..42] && y[..42] == b[..42];
    assert Sextet(x[42]).value == Sextet(a[42]).value / 4 * 4 && Sextet(y[42]).value == Sextet(b[42]).value / 4 * 4;
    assert x == x[..42] + [x[42]] + "=" && y == y[..42] + [y[42]] + "=";
    SymbolOfSextet(x[42]);
    SymbolOfSextet(y[42]);
  }

  /** Parsing is not injective: every key has a second text, its own text and a line break. */
  lemma EveryKeyHasAnAlias(k: Key)
    requires Canonical(k)
    ensures k + "\n" != k
    ensures ParseKey(k + "\n") == Some(k)
  {
    SkipDistributes(k, "\n");
    assert WithoutLineBreaks("\n") == [];
    CanonicalHasNoBreaks(k);
    assert k + [] == k;
    ParsePrinted(k);
  }
}

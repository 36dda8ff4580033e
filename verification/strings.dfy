/** String helpers used by several modules: joining words with a one-character
    separator, splitting with empty pieces skipped (the behaviour of
    absl::StrSplit with absl::SkipEmpty), and decimal rendering of naturals. */
module Strings {

  /** The pieces of `ws` separated by single `sep` characters. */
  function Join(ws: seq<string>, sep: char): (r: string)
    ensures |ws| == 1 ==> r == ws[0]
    decreases |ws|
  {
    if |ws| == 0 then ""
    else if |ws| == 1 then ws[0]
    else ws[0] + [sep] + Join(ws[1..], sep)
  }

  /** The longest prefix of `s` that does not contain `sep`. */
  function Word(s: string, sep: char): (w: string)
    ensures |w| <= |s| && w == s[..|w|]
    ensures sep !in w
    ensures |w| < |s| ==> s[|w|] == sep
    decreases |s|
  {
    if |s| == 0 || s[0] == sep then "" else [s[0]] + Word(s[1..], sep)
  }

  /** `s` cut at every `sep`, dropping the empty pieces. */
  function Split(s: string, sep: char): (ws: seq<string>)
    decreases |s|
  {
    if |s| == 0 then []
    else if s[0] == sep then Split(s[1..], sep)
    else
      var w := Word(s, sep);
      [w] + Split(s[|w|..], sep)
  }

  predicate IsWord(w: string, sep: char) {
    |w| > 0 && sep !in w
  }

  /** Every piece that Split returns is non-empty and free of the separator. */
  lemma {:induction false} SplitYieldsWords(s: string, sep: char)
    ensures forall i :: 0 <= i < |Split(s, sep)| ==> IsWord(Split(s, sep)[i], sep)
    decreases |s|
  {
    if |s| == 0 {
    } else if s[0] == sep {
      SplitYieldsWords(s[1..], sep);
    } else {
      var w := Word(s, sep);
      SplitYieldsWords(s[|w|..], sep);
    }
  }

  lemma WordOfPrefix(w: string, t: string, sep: char)
    requires sep !in w
    requires |t| == 0 || t[0] == sep
    ensures Word(w + t, sep) == w
    decreases |w|
  {
    if |w| > 0 {
      assert (w + t)[1..] == w[1..] + t;
      WordOfPrefix(w[1..], t, sep);
    } else {
      assert w + t == t;
    }
  }

  /** Splitting a join of separator-free, non-empty words gives the words back. */
  lemma {:induction false} SplitJoin(ws: seq<string>, sep: char)
    requires forall i :: 0 <= i < |ws| ==> IsWord(ws[i], sep)
    ensures Split(Join(ws, sep), sep) == ws
    decreases |ws|
  {
    if |ws| == 0 {
    } else if |ws| == 1 {
      var w := ws[0];
      WordOfPrefix(w, "", sep);
      assert w + "" == w;
      assert w[|w|..] == "";
    } else {
      var w := ws[0];
      var rest := Join(ws[1..], sep);
      var s := w + [sep] + rest;
      assert s == w + ([sep] + rest);
      WordOfPrefix(w, [sep] + rest, sep);
      assert s[|w|..] == [sep] + rest;
      assert ([sep] + rest)[1..] == rest;
      SplitJoin(ws[1..], sep);
    }
  }

  function DigitChar(d: nat): (c: char)
    requires d < 10
  {
    "0123456789"[d]
  }

  predicate IsDigit(c: char) {
    '0' as int <= c as int <= '9' as int
  }

  /** Decimal rendering of a natural number without leading zeros. */
  function NatToString(n: nat): (s: string)
    ensures |s| > 0
    ensures forall i :: 0 <= i < |s| ==> IsDigit(s[i])
  {
    if n < 10 then [DigitChar(n)] else NatToString(n / 10) + [DigitChar(n % 10)]
  }

  /** Value of a string of decimal digits. */
  function ParseNat(s: string): nat
    requires forall i :: 0 <= i < |s| ==> IsDigit(s[i])
  {
    if |s| == 0 then 0
    else
      assert IsDigit(s[|s| - 1]);
      ParseNat(s[..|s| - 1]) * 10 + ((s[|s| - 1] as int) - ('0' as int))
  }

  lemma {:induction false} ParseNatToString(n: nat)
    ensures ParseNat(NatToString(n)) == n
  {
    if n >= 10 {
      var s := NatToString(n);
      assert s[..|s| - 1] == NatToString(n / 10);
      ParseNatToString(n / 10);
    }
  }
}

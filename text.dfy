/** The string helpers the core relies on: case folding for e-mail addresses,
    the whitespace split of `strings.Fields`, the single-space split of
    `strings.Split(s, " ")` and the decimal parse of `strconv.ParseUint(s, 10, 32)`. */
module Text {
  import opened Results

  // ---------------------------------------------------------------- case folding

  predicate IsUpper(c: char) { 'A' <= c <= 'Z' }

  function LowerChar(c: char): (r: char)
    ensures !IsUpper(r)
    ensures !IsUpper(c) ==> r == c
    ensures IsUpper(c) ==> r as int == c as int + 32
  {
    if IsUpper(c) then (c as int + 32) as char else c
  }

  /** Lower-casing as `strings.ToLower` does it on ASCII text. */
  function Lower(s: string): (r: string)
    ensures |r| == |s|
    ensures forall i :: 0 <= i < |r| ==> !IsUpper(r[i])
    ensures forall i :: 0 <= i < |s| && !IsUpper(s[i]) ==> r[i] == s[i]
    ensures forall i :: 0 <= i < |s| && IsUpper(s[i]) ==> r[i] as int == s[i] as int + 32
  {
    seq(|s|, i requires 0 <= i < |s| => LowerChar(s[i]))
  }

  /** Two characters that are the same letter up to ASCII case. */
  predicate SameIgnoringCase(x: char, y: char) {
    || x == y
    || (IsUpper(x) && y as int == x as int + 32)
    || (IsUpper(y) && x as int == y as int + 32)
  }

  /** Two strings that differ at most in the ASCII case of their letters. */
  predicate EqualIgnoringCase(a: string, b: string) {
    |a| == |b| && forall i :: 0 <= i < |a| ==> SameIgnoringCase(a[i], b[i])
  }

  /** Folding identifies exactly the strings that are equal up to case. */
  lemma LowerEqualIff(a: string, b: string)
    ensures Lower(a) == Lower(b) <==> EqualIgnoringCase(a, b)
  {
    if Lower(a) == Lower(b) {
      forall i | 0 <= i < |a| ensures SameIgnoringCase(a[i], b[i]) {
        assert LowerChar(a[i]) == Lower(a)[i] == Lower(b)[i] == LowerChar(b[i]);
      }
    }
    if EqualIgnoringCase(a, b) {
      forall i | 0 <= i < |a| ensures Lower(a)[i] == Lower(b)[i] {
        assert SameIgnoringCase(a[i], b[i]);
      }
    }
  }

  /** Folding twice is folding once: a stored (already lower-case) e-mail
      address is a fixed point of `Lower`. */
  lemma LowerIdempotent(s: string)
    ensures Lower(Lower(s)) == Lower(s)
  {
    var once := Lower(s);
    forall i | 0 <= i < |once| ensures Lower(once)[i] == once[i] {
      assert !IsUpper(once[i]);
    }
  }

  // ---------------------------------------------------------------- strings.Fields

  /** Unicode White_Space, the set `unicode.IsSpace` accepts. */
  predicate IsSpace(c: char) {
    || c == ' ' || c == '\t' || c == '\n' || c == '\r'
    || c == '\U{0B}' || c == '\U{0C}' || c == '\U{85}' || c == '\U{A0}'
    || c == '\U{1680}' || ('\U{2000}' <= c <= '\U{200A}')
    || c == '\U{2028}' || c == '\U{2029}' || c == '\U{202F}' || c == '\U{205F}' || c == '\U{3000}'
  }

  predicate IsWord(w: string) {
    w != [] && forall i :: 0 <= i < |w| ==> !IsSpace(w[i])
  }

  /** Length of the leading run of non-space characters. */
  function WordLength(s: string): (n: nat)
    ensures n <= |s|
    ensures forall i :: 0 <= i < n ==> !IsSpace(s[i])
    ensures n < |s| ==> IsSpace(s[n])
  {
    if s == [] || IsSpace(s[0]) then 0 else 1 + WordLength(s[1..])
  }

  /** `strings.Fields`: the maximal runs of non-space characters, in order. */
  function Fields(s: string): (r: seq<string>)
    decreases |s|
    ensures forall k :: 0 <= k < |r| ==> IsWord(r[k])
  {
    if s == [] then []
    else if IsSpace(s[0]) then Fields(s[1..])
    else
      var n := WordLength(s);
      [s[..n]] + Fields(s[n..])
  }

  /** `strings.Join`: the parts with `sep` between neighbours. */
  function Join(ws: seq<string>, sep: string): (r: string)
    ensures ws == [] ==> r == []
    ensures |ws| == 1 ==> r == ws[0]
  {
    if ws == [] then []
    else if |ws| == 1 then ws[0]
    else ws[0] + sep + Join(ws[1..], sep)
  }

  /** With two or more parts, the first part comes first and the separator
      right after it. */
  lemma JoinStartsWith(ws: seq<string>, sep: string)
    requires |ws| >= 2
    ensures |Join(ws, sep)| >= |ws[0]| + |sep|
    ensures Join(ws, sep)[..|ws[0]|] == ws[0] && Join(ws, sep)[|ws[0]|..|ws[0]| + |sep|] == sep
  {
    var r := Join(ws, sep);
    assert r == ws[0] + sep + Join(ws[1..], sep);
  }

  /** One more part at the end adds the separator and that part. */
  lemma {:induction false} JoinAppend(ws: seq<string>, w: string, sep: string)
    requires ws != []
    ensures Join(ws + [w], sep) == Join(ws, sep) + sep + w
  {
    if |ws| == 1 {
      assert ws + [w] == [ws[0], w];
      assert [ws[0], w][1..] == [w];
    } else {
      assert (ws + [w])[1..] == ws[1..] + [w];
      JoinAppend(ws[1..], w, sep);
    }
  }

  lemma {:induction false} WordLengthOfWord(w: string, rest: string)
    requires IsWord(w)
    requires rest == [] || IsSpace(rest[0])
    ensures WordLength(w + rest) == |w|
    decreases |w|
  {
    if |w| > 1 {
      assert (w + rest)[1..] == w[1..] + rest;
      WordLengthOfWord(w[1..], rest);
    } else {
      assert (w + rest)[1..] == rest;
    }
  }

  /** `Fields` undoes a single-space join of words: it is the inverse of joining with single spaces. */
  lemma {:induction false} FieldsOfJoin(ws: seq<string>)
    requires forall k :: 0 <= k < |ws| ==> IsWord(ws[k])
    ensures Fields(Join(ws, " ")) == ws
  {
    if ws == [] {
    } else if |ws| == 1 {
      FieldsOfWord(ws[0]);
    } else {
      var w, tail := ws[0], Join(ws[1..], " ");
      var s := w + " " + tail;
      assert s == w + (" " + tail);
      WordLengthOfWord(w, " " + tail);
      assert s[..|w|] == w;
      assert s[|w|..] == " " + tail;
      assert (" " + tail)[1..] == tail;
      FieldsOfJoin(ws[1..]);
    }
  }

  lemma FieldsOfWord(w: string)
    requires IsWord(w)
    ensures Fields(w) == [w]
  {
    WordLengthOfWord(w, []);
    assert w + [] == w;
    assert w[|w|..] == [];
  }

  /** Leading white space does not change the fields. */
  lemma {:induction false} FieldsSkipSpace(sp: string, rest: string)
    requires forall i :: 0 <= i < |sp| ==> IsSpace(sp[i])
    ensures Fields(sp + rest) == Fields(rest)
    decreases |sp|
  {
    if sp == [] {
      assert sp + rest == rest;
    } else {
      assert (sp + rest)[1..] == sp[1..] + rest;
      FieldsSkipSpace(sp[1..], rest);
    }
  }

  /** A word followed by any non-empty run of white space is the first field,
      however long the run. */
  lemma FieldsAfterWord(w: string, sp: string, rest: string)
    requires IsWord(w)
    requires sp != [] && forall i :: 0 <= i < |sp| ==> IsSpace(sp[i])
    ensures Fields(w + sp + rest) == [w] + Fields(rest)
  {
    var s := w + (sp + rest);
    assert w + sp + rest == s;
    WordLengthOfWord(w, sp + rest);
    assert s[..|w|] == w;
    assert s[|w|..] == sp + rest;
    FieldsSkipSpace(sp, rest);
  }

  // ---------------------------------------------------------------- strings.Split(s, " ")

  /** `strings.Split(s, " ")`: the pieces between single spaces, empty pieces kept. */
  function SplitSpace(s: string): (r: seq<string>)
    ensures |r| >= 1
    ensures forall k :: 0 <= k < |r| ==> ' ' !in r[k]
    ensures Join(r, " ") == s
  {
    if s == [] then [[]]
    else
      var rest := SplitSpace(s[1..]);
      if s[0] == ' ' then
        assert Join([[]] + rest, " ") == " " + Join(rest, " ") by {
          assert ([[]] + rest)[1..] == rest;
        }
        [[]] + rest
      else
        var r := [[s[0]] + rest[0]] + rest[1..];
        assert Join(r, " ") == s by {
          if |rest| == 1 {
          } else {
            assert r[1..] == rest[1..];
            assert Join(rest, " ") == rest[0] + " " + Join(rest[1..], " ");
            assert s == [s[0]] + s[1..];
          }
        }
        r
  }

  /** A piece without spaces is not split. */
  lemma {:induction false} SplitOfPiece(p: string)
    requires ' ' !in p
    ensures SplitSpace(p) == [p]
  {
    if p != [] {
      assert p[0] in p;
      assert forall c :: c in p[1..] ==> c in p;
      SplitOfPiece(p[1..]);
      assert [p[0]] + p[1..] == p;
    }
  }

  /** A piece without spaces followed by one space is the first part;
      the split then continues right after that single space. */
  lemma {:induction false} SplitAfterPiece(p: string, rest: string)
    requires ' ' !in p
    ensures SplitSpace(p + " " + rest) == [p] + SplitSpace(rest)
    decreases |p|
  {
    var s := p + " " + rest;
    if p == [] {
      assert s == " " + rest;
      assert s[1..] == rest;
    } else {
      assert p[0] in p;
      assert forall c :: c in p[1..] ==> c in p;
      assert s[1..] == p[1..] + " " + rest;
      SplitAfterPiece(p[1..], rest);
      assert [p[0]] + p[1..] == p;
    }
  }

  // ---------------------------------------------------------------- strconv.ParseUint(s, 10, 32)

  predicate IsDigit(c: char) { '0' <= c <= '9' }

  predicate AllDigits(s: string) { forall i :: 0 <= i < |s| ==> IsDigit(s[i]) }

  /** Value of a string of decimal digits, most significant first. */
  function DigitsValue(s: string): nat
    requires AllDigits(s)
  {
    if s == [] then 0 else DigitsValue(s[..|s| - 1]) * 10 + (s[|s| - 1] as int - '0' as int)
  }

  const Uint32Limit: nat := 0x1_0000_0000

  /** `strconv.ParseUint(s, 10, 32)`: a non-empty string of ASCII digits whose
      value fits in 32 bits. Signs, spaces and underscores are syntax errors and a
      too-large value is a range error; both are `None`. */
  function ParseUint32(s: string): (r: Option<nat>)
    ensures r.Some? <==> s != [] && AllDigits(s) && DigitsValue(s) < Uint32Limit
    ensures r.Some? ==> r.value < Uint32Limit && r.value == DigitsValue(s)
  {
    if s != [] && AllDigits(s) && DigitsValue(s) < Uint32Limit then Some(DigitsValue(s)) else None
  }

  function DigitChar(d: nat): (c: char)
    requires d < 10
    ensures IsDigit(c) && c as int - '0' as int == d
  {
    ('0' as int + d) as char
  }

  /** Canonical decimal spelling of `n`, as `strconv.FormatUint(n, 10)` writes it. */
  function Decimal(n: nat): (s: string)
    ensures s != [] && AllDigits(s)
  {
    if n < 10 then [DigitChar(n)] else Decimal(n / 10) + [DigitChar(n % 10)]
  }

  lemma {:induction false} DigitsValueOfDecimal(n: nat)
    ensures DigitsValue(Decimal(n)) == n
  {
    var s := Decimal(n);
    if n < 10 {
      assert s[..|s| - 1] == [];
    } else {
      assert s[..|s| - 1] == Decimal(n / 10);
      DigitsValueOfDecimal(n / 10);
    }
  }

  /** Parsing the decimal spelling of any 32-bit value gives that value back. */
  lemma ParseUint32OfDecimal(n: nat)
    requires n < Uint32Limit
    ensures ParseUint32(Decimal(n)) == Some(n)
  {
    DigitsValueOfDecimal(n);
  }

  /** `k` zero digits. */
  function Zeros(k: nat): (s: string)
    ensures |s| == k && AllDigits(s) && DigitsValue(s) == 0
  {
    if k == 0 then [] else Zeros(k - 1) + ['0']
  }

  /** Appending a digit multiplies the value by ten and adds the digit. */
  lemma DigitsValueSnoc(p: string, c: char)
    requires AllDigits(p) && IsDigit(c)
    ensures AllDigits(p + [c])
    ensures DigitsValue(p + [c]) == DigitsValue(p) * 10 + (c as int - '0' as int)
  {
    assert (p + [c])[..|p|] == p;
  }

  /** The spelling of a number of two or more digits ends with its last digit. */
  lemma DecimalSnoc(v: nat, c: char)
    requires v > 0 && IsDigit(c)
    ensures Decimal(v * 10 + (c as int - '0' as int)) == Decimal(v) + [c]
  {
    var d := c as int - '0' as int;
    var n := v * 10 + d;
    assert n / 10 == v && n % 10 == d;
    assert DigitChar(d) == c;
  }

  /** Every digit string is its value's canonical spelling after some
      leading zeros. */
  lemma {:induction false} SpellingOfDigits(s: string) returns (k: nat)
    requires s != [] && AllDigits(s)
    ensures s == Zeros(k) + Decimal(DigitsValue(s))
  {
    var p, c := s[..|s| - 1], s[|s| - 1];
    assert s == p + [c];
    if p == [] {
      k := 0;
      SpellingOfOneDigit(c);
    } else {
      var j := SpellingOfDigits(p);
      k := SpellingAfterDigit(p, c, j);
    }
  }

  lemma SpellingOfOneDigit(c: char)
    requires IsDigit(c)
    ensures [c] == Zeros(0) + Decimal(DigitsValue([c]))
  {
    DigitsValueSnoc([], c);
    assert [] + [c] == [c];
    assert DigitChar(c as int - '0' as int) == c;
  }

  /** One more digit after a spelled prefix keeps the spelling shape. */
  lemma SpellingAfterDigit(p: string, c: char, j: nat) returns (k: nat)
    requires AllDigits(p) && IsDigit(c)
    requires p == Zeros(j) + Decimal(DigitsValue(p))
    ensures p + [c] == Zeros(k) + Decimal(DigitsValue(p + [c]))
  {
    DigitsValueSnoc(p, c);
    var d := c as int - '0' as int;
    if DigitsValue(p) == 0 {
      assert p == Zeros(j + 1);
      assert DigitChar(d) == c;
      k := j + 1;
    } else {
      DecimalSnoc(DigitsValue(p), c);
      k := j;
    }
  }

  /** The parse and the canonical spelling are inverse up to leading zeros:
      whatever `ParseUint32` accepts is its value's spelling with zero or
      more zeros in front (so "07" reads as 7). */
  lemma DecimalOfParse(s: string)
    requires ParseUint32(s).Some?
    ensures exists k :: s == Zeros(k) + Decimal(ParseUint32(s).value)
  {
    var k := SpellingOfDigits(s);
  }
}

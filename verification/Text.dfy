/** The string helpers of the Go standard library that the operator's small languages use. */
module Text {
  import opened Common

  predicate IsSpace(c: char) {
    || c in "\t\n\U{B}\U{C}\r \U{85}\U{A0}\U{1680}\U{2028}\U{2029}\U{202F}\U{205F}\U{3000}"
    || '\U{2000}' <= c <= '\U{200A}'
  }

  /** In Unicode code points: the white space of `unicode.IsSpace`. */
  lemma SpaceCodes(ch: char)
    ensures var c := ch as int;
            IsSpace(ch) <==>
              || 9 <= c <= 13 || c == 32 || c == 133 || c == 160 || c == 5760 || 8192 <= c <= 8202
              || c == 8232 || c == 8233 || c == 8239 || c == 8287 || c == 12288
  {
    var blanks := "\t\n\U{B}\U{C}\r \U{85}\U{A0}\U{1680}\U{2028}\U{2029}\U{202F}\U{205F}\U{3000}";
    assert ch in blanks <==>
             || ch == '\t' || ch == '\n' || ch == '\U{B}' || ch == '\U{C}' || ch == '\r' || ch == ' '
             || ch == '\U{85}' || ch == '\U{A0}' || ch == '\U{1680}' || ch == '\U{2028}' || ch == '\U{2029}'
             || ch == '\U{202F}' || ch == '\U{205F}' || ch == '\U{3000}';
  }

  predicate IsSlash(c: char) {
    c == '/'
  }

  function TrimLeft(s: string, cut: char -> bool): string {
    if s != "" && cut(s[0]) then TrimLeft(s[1..], cut) else s
  }

  function TrimRight(s: string, cut: char -> bool): string {
    if s != "" && cut(s[|s| - 1]) then TrimRight(s[..|s| - 1], cut) else s
  }

  function Trim(s: string, cut: char -> bool): string {
    TrimRight(TrimLeft(s, cut), cut)
  }

  function TrimSpace(s: string): string {
    Trim(s, IsSpace)
  }

  ghost predicate All(s: string, p: char -> bool) {
    forall c :: c in s ==> p(c)
  }

  /** Text that trimming leaves alone. */
  predicate Trimmed(s: string, cut: char -> bool) {
    s == "" || (!cut(s[0]) && !cut(s[|s| - 1]))
  }

  /** Blank text, and only blank text, trims to nothing. */
  lemma TrimToNothing(s: string, cut: char -> bool)
    ensures Trim(s, cut) == "" <==> All(s, cut)
  {
    if All(s, cut) {
      TrimLeftPadding(s, "", cut);
      assert s + "" == s;
    } else {
      TrimLeftStops(s, cut);
      TrimRightStops(TrimLeft(s, cut), cut);
    }
  }

  lemma {:induction false} TrimLeftStops(s: string, cut: char -> bool)
    requires !All(s, cut)
    ensures TrimLeft(s, cut) != "" && !cut(TrimLeft(s, cut)[0])
  {
    if cut(s[0]) {
      assert s == [s[0]] + s[1..];
      TrimLeftStops(s[1..], cut);
    }
  }

  lemma {:induction false} TrimRightStops(s: string, cut: char -> bool)
    requires s != "" && !cut(s[0])
    ensures TrimRight(s, cut) != ""
  {
    if cut(s[|s| - 1]) {
      TrimRightStops(s[..|s| - 1], cut);
    }
  }

  lemma {:induction false} TrimLeftPadding(pad: string, s: string, cut: char -> bool)
    requires All(pad, cut) && (s == "" || !cut(s[0]))
    ensures TrimLeft(pad + s, cut) == s
  {
    if pad == "" {
      assert pad + s == s;
    } else {
      assert (pad + s)[1..] == pad[1..] + s;
      TrimLeftPadding(pad[1..], s, cut);
    }
  }

  lemma {:induction false} TrimRightPadding(s: string, pad: string, cut: char -> bool)
    requires All(pad, cut) && (s == "" || !cut(s[|s| - 1]))
    ensures TrimRight(s + pad, cut) == s
  {
    if pad == "" {
      assert s + pad == s;
    } else {
      assert (s + pad)[..|s + pad| - 1] == s + pad[..|pad| - 1];
      TrimRightPadding(s, pad[..|pad| - 1], cut);
    }
  }

  lemma TrimPadded(left: string, s: string, right: string, cut: char -> bool)
    requires All(left, cut) && All(right, cut) && Trimmed(s, cut)
    ensures Trim(left + s + right, cut) == s
  {
    if s == "" {
      assert left + s + right == left + right + "";
      TrimLeftPadding(left + right, "", cut);
    } else {
      assert left + s + right == left + (s + right);
      TrimLeftPadding(left, s + right, cut);
      TrimRightPadding(s, right, cut);
    }
  }

  /** The text before and after the first occurrence of `sep`. */
  function Cut(s: string, sep: string): Option<(string, string)> {
    if sep <= s then Some(("", s[|sep|..]))
    else if s == "" then None
    else
      var rest := Cut(s[1..], sep);
      if rest.None? then None else Some(([s[0]] + rest.value.0, rest.value.1))
  }

  /** A prefix without the separator's first character is skipped whole. */
  lemma {:induction false} CutSkips(v: string, r: string, sep: string)
    requires sep != "" && sep[0] !in v
    ensures Cut(v + r, sep) ==
              var c := Cut(r, sep); if c.None? then None else Some((v + c.value.0, c.value.1))
  {
    if v == "" {
      assert v + r == r;
      assert Cut(r, sep).Some? ==> v + Cut(r, sep).value.0 == Cut(r, sep).value.0;
    } else {
      assert (v + r)[0] == v[0] && (v + r)[1..] == v[1..] + r;
      CutSkips(v[1..], r, sep);
      var c := Cut(r, sep);
      if c.Some? {
        assert [v[0]] + (v[1..] + c.value.0) == v + c.value.0;
      }
    }
  }

  /** Cutting finds the first occurrence, and misses none. */
  lemma {:induction false} CutIsFirst(s: string, sep: string)
    ensures match Cut(s, sep)
            case None => forall i | 0 <= i <= |s| :: !(sep <= s[i..])
            case Some((a, b)) => s == a + sep + b && forall i | 0 <= i < |a| :: !(sep <= s[i..])
  {
    assert s[0..] == s;
    if !(sep <= s) && s != "" {
      CutIsFirst(s[1..], sep);
      assert forall i | 1 <= i <= |s| :: s[1..][i - 1..] == s[i..];
      var rest := Cut(s[1..], sep);
      if rest.None? {
        forall i | 0 <= i <= |s| ensures !(sep <= s[i..]) {
          assert i > 0 ==> s[1..][i - 1..] == s[i..];
        }
      } else {
        assert s == [s[0]] + s[1..];
        forall i | 0 <= i < |rest.value.0| + 1 ensures !(sep <= s[i..]) {
          assert i > 0 ==> s[1..][i - 1..] == s[i..];
        }
      }
    }
  }

  lemma CutAbsent(s: string, sep: string)
    requires sep != "" && sep[0] !in s
    ensures Cut(s, sep) == None
  {}

  /** Segments between slashes; at least one. */
  function Split(s: string): (segments: seq<string>)
    ensures segments != []
  {
    if s == "" then [""]
    else
      var rest := Split(s[1..]);
      if s[0] == '/' then [""] + rest else [[s[0]] + rest[0]] + rest[1..]
  }

  lemma {:induction false} SplitFirst(t: string, r: string)
    requires '/' !in t
    ensures Split(t) == [t]
    ensures Split(t + "/" + r) == [t] + Split(r)
  {
    if t == "" {
      assert ("" + "/" + r)[1..] == r;
    } else {
      SplitFirst(t[1..], r);
      assert (t + "/" + r)[0] == t[0] && (t + "/" + r)[1..] == t[1..] + "/" + r;
      assert [t[0]] + t[1..] == t;
      assert ([t[1..]] + Split(r))[1..] == Split(r);
    }
  }

  /** Joining undoes splitting. */
  function Join(segments: seq<string>): string
    requires segments != []
  {
    if |segments| == 1 then segments[0] else segments[0] + "/" + Join(segments[1..])
  }

  lemma {:induction false} JoinSplit(s: string)
    ensures Join(Split(s)) == s
    ensures forall g :: g in Split(s) ==> '/' !in g
  {
    if s != "" {
      JoinSplit(s[1..]);
      var rest := Split(s[1..]);
      if s[0] == '/' {
        assert ([""] + rest)[1..] == rest;
        assert "" + "/" + s[1..] == s;
      } else {
        var all := [[s[0]] + rest[0]] + rest[1..];
        assert rest[0] in rest && rest == [rest[0]] + rest[1..];
        assert all[1..] == rest[1..];
        if |rest| == 1 {
          assert s == [s[0]] + s[1..];
        } else {
          assert s == [s[0]] + (rest[0] + "/" + Join(rest[1..]));
        }
      }
    }
  }

  // ----- decimal numbers

  const MaxInt: int := 0x7FFF_FFFF_FFFF_FFFF

  predicate IsDigit(c: char) {
    '0' <= c <= '9'
  }

  predicate AllDigits(s: string) {
    forall i | 0 <= i < |s| :: IsDigit(s[i])
  }

  function Digit(n: nat): (c: char)
    requires n < 10
    ensures IsDigit(c) && c as int - '0' as int == n
  {
    (n + '0' as int) as char
  }

  /** `strconv.Itoa` on a nonnegative number. */
  function Itoa(n: nat): (s: string)
    ensures s != "" && AllDigits(s)
  {
    if n < 10 then [Digit(n)] else Itoa(n / 10) + [Digit(n % 10)]
  }

  function Value(digits: string): nat
    requires AllDigits(digits)
  {
    if digits == "" then 0
    else
      var last := digits[|digits| - 1];
      10 * Value(digits[..|digits| - 1]) + (last as int - '0' as int)
  }

  /** `strconv.Atoi`: an optional sign, at least one digit, and a value that fits 64 bits. */
  function Atoi(s: string): Option<int> {
    var signed := s != "" && (s[0] == '-' || s[0] == '+');
    var digits := if signed then s[1..] else s;
    if digits == "" || !AllDigits(digits) then None
    else
      var v: int := Value(digits);
      if signed && s[0] == '-' then (if v <= MaxInt + 1 then Some(-v) else None)
      else if v <= MaxInt then Some(v) else None
  }

  lemma {:induction false} ValueOfItoa(n: nat)
    ensures Value(Itoa(n)) == n
  {
    if n >= 10 {
      ValueOfItoa(n / 10);
      var s := Itoa(n / 10) + [Digit(n % 10)];
      assert s[..|s| - 1] == Itoa(n / 10);
    }
  }

  /** Every nonnegative number is read back from its decimal form if it fits 63 bits, and refused if
      it does not. */
  lemma AtoiOfItoa(n: nat)
    ensures Atoi(Itoa(n)) == if n <= 9223372036854775807 then Some(n) else None
  {
    ValueOfItoa(n);
    assert IsDigit(Itoa(n)[0]);
  }

  /** Decimal notation: one more digit is ten times the number plus the digit, and a sign may precede. */
  lemma AtoiReadsDecimal(n: nat, d: nat)
    requires d < 10 && 10 * n + d <= 9223372036854775807
    ensures var s := Itoa(n) + [Digit(d)];
            Atoi(s) == Some(10 * n + d) && Atoi("+" + s) == Some(10 * n + d) && Atoi("-" + s) == Some(-(10 * n + d))
  {
    ValueOfItoa(n);
    var s := Itoa(n) + [Digit(d)];
    assert s[..|s| - 1] == Itoa(n);
    AtoiSigned(s);
  }

  lemma AtoiSigned(s: string)
    requires s != "" && AllDigits(s) && Value(s) <= MaxInt
    ensures var v: int := Value(s);
            Atoi(s) == Some(v) && Atoi("+" + s) == Some(v) && Atoi("-" + s) == Some(-v)
  {
    assert IsDigit(s[0]);
    assert ("+" + s)[1..] == s && ("-" + s)[1..] == s;
  }

  /** Nothing but a numeral is read: an optional sign, then ASCII digits, at least one. */
  lemma AtoiOnlyNumerals(s: string)
    requires Atoi(s).Some?
    ensures var digits := if s != "" && s[0] in "+-" then s[1..] else s;
            digits != "" && forall i | 0 <= i < |digits| :: 48 <= digits[i] as int <= 57
  {}
}

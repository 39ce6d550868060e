/** The characters and small text functions of Python that the models share. */
module Texts {
  /** Where `splitlines` breaks. */
  predicate IsBreak(c: char) {
    c in {'\n', '\r', '\U{0B}', '\U{0C}', '\U{1C}', '\U{1D}', '\U{1E}', '\U{85}', '\U{2028}', '\U{2029}'}
  }

  /** What `strip` and `split` take for space. */
  predicate IsSpace(c: char) {
    IsBreak(c) || c in {' ', '\t', '\U{1F}', '\U{A0}', '\U{1680}', '\U{202F}', '\U{205F}', '\U{3000}'}
    || '\U{2000}' <= c <= '\U{200A}'
  }

  /** The characters, by their numbers, that `str.splitlines` breaks at and that `str.split` and `str.strip` take. */
  lemma SpacesExactly(c: char)
    ensures IsBreak(c) <==> c as int in {10, 11, 12, 13, 28, 29, 30, 133, 8232, 8233}
    ensures IsSpace(c) <==>
      || 9 <= c as int <= 13 || 28 <= c as int <= 32 || 8192 <= c as int <= 8202
      || c as int in {133, 160, 5760, 8232, 8233, 8239, 8287, 12288}
  {
  }

  function StripLeft(s: string): string {
    if s != [] && IsSpace(s[0]) then StripLeft(s[1..]) else s
  }

  function StripRight(s: string): string {
    if s != [] && IsSpace(s[|s| - 1]) then StripRight(s[..|s| - 1]) else s
  }

  /** `strip()`. */
  function Strip(s: string): string {
    StripRight(StripLeft(s))
  }

  /** A digit of a digest or a generated id. */
  predicate Hex(c: char) {
    '0' <= c <= '9' || 'a' <= c <= 'f'
  }

  predicate IsDigit(c: char) {
    '0' <= c <= '9'
  }

  /** `isdigit()`, on the digits of ASCII. */
  predicate AllDigits(s: string) {
    s != [] && forall i :: 0 <= i < |s| ==> IsDigit(s[i])
  }

  /** `int()` of a row of digits. */
  function ToInt(s: string): nat
    requires forall i :: 0 <= i < |s| ==> IsDigit(s[i])
  {
    if s == [] then 0
    else
      assert IsDigit(s[|s| - 1]);
      ToInt(s[..|s| - 1]) * 10 + (s[|s| - 1] as int - '0' as int)
  }

  predicate AllSpace(s: string) {
    forall i :: 0 <= i < |s| ==> IsSpace(s[i])
  }

  /** Text that neither starts nor ends with space. */
  predicate Trimmed(s: string) {
    s != [] && !IsSpace(s[0]) && !IsSpace(s[|s| - 1])
  }

  lemma {:induction false} StripLeftOf(left: string, core: string)
    requires AllSpace(left) && core != [] && !IsSpace(core[0])
    ensures StripLeft(left + core) == core
  {
    hide IsSpace;
    if left == [] {
      assert left + core == core;
    } else {
      assert (left + core)[1..] == left[1..] + core;
      StripLeftOf(left[1..], core);
    }
  }

  lemma {:induction false} StripRightOf(core: string, right: string)
    requires AllSpace(right) && core != [] && !IsSpace(core[|core| - 1])
    ensures StripRight(core + right) == core
    decreases |right|
  {
    hide IsSpace;
    if right == [] {
      assert core + right == core;
    } else {
      assert (core + right)[..|core + right| - 1] == core + right[..|right| - 1];
      StripRightOf(core, right[..|right| - 1]);
    }
  }

  /** Space around trimmed text is all that `strip` takes. */
  lemma StripOf(left: string, core: string, right: string)
    requires AllSpace(left) && Trimmed(core) && AllSpace(right)
    ensures Strip(left + core + right) == core
  {
    hide IsSpace, StripLeft, StripRight;
    assert left + core + right == left + (core + right);
    StripLeftOf(left, core + right);
    StripRightOf(core, right);
  }

  lemma {:induction false} StripLeftSplits(s: string) returns (left: string)
    ensures AllSpace(left) && s == left + StripLeft(s) && (StripLeft(s) == [] || !IsSpace(StripLeft(s)[0]))
  {
    hide IsSpace;
    if s != [] && IsSpace(s[0]) {
      var rest := StripLeftSplits(s[1..]);
      left := [s[0]] + rest;
    } else {
      left := [];
    }
  }

  lemma {:induction false} StripRightSplits(s: string) returns (right: string)
    ensures AllSpace(right) && s == StripRight(s) + right
    ensures StripRight(s) == [] || (!IsSpace(StripRight(s)[|StripRight(s)| - 1]) && StripRight(s)[0] == s[0])
  {
    hide IsSpace;
    if s != [] && IsSpace(s[|s| - 1]) {
      var rest := StripRightSplits(s[..|s| - 1]);
      right := rest + [s[|s| - 1]];
    } else {
      right := [];
    }
  }

  /** The text is this, with space on either side. */
  ghost predicate Around(s: string, core: string) {
    exists left, right :: AllSpace(left) && AllSpace(right) && s == left + core + right
  }

  /** What `strip` leaves: the one piece that neither starts nor ends with space, and nothing of space alone. */
  lemma StripExactly(s: string, core: string)
    ensures core != [] ==> (Strip(s) == core <==> Trimmed(core) && Around(s, core))
    ensures Strip(s) == [] <==> AllSpace(s)
  {
    var left := StripLeftSplits(s);
    var right := StripRightSplits(StripLeft(s));
    assert s == left + Strip(s) + right;
    assert Around(s, Strip(s));
    assert Strip(s) == [] || Trimmed(Strip(s));
    hide IsSpace, Strip;
    if Trimmed(core) && Around(s, core) {
      var l, r :| AllSpace(l) && AllSpace(r) && s == l + core + r;
      StripOf(l, core, r);
    }
    if Strip(s) != [] {
      assert s[|left|] == Strip(s)[0];
    }
    if Strip(s) == [] {
      assert s == left + right;
    }
  }

  /** A number in decimal digits. */
  function Digits(n: nat): (s: string)
    ensures AllDigits(s)
  {
    var last := [('0' as int + n % 10) as char];
    if n < 10 then last else Digits(n / 10) + last
  }

  /** A number's digits read back as the number. */
  lemma {:induction false} DigitsReadBack(n: nat)
    ensures ToInt(Digits(n)) == n
  {
    var s := Digits(n);
    if n < 10 {
      assert s[..0] == [];
    } else {
      DigitsReadBack(n / 10);
      assert s[..|s| - 1] == Digits(n / 10);
    }
  }

  lemma DigitsAreTrimmed(s: string)
    requires AllDigits(s)
    ensures Trimmed(s)
  {
    assert IsDigit(s[0]) && IsDigit(s[|s| - 1]);
  }
}

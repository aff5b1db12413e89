/** Decimal numbers as sprintf writes and atoi reads them, C strings, and files of bytes. */
module DedupText {

  predicate IsDigit(c: char) {
    '0' <= c <= '9'
  }

  function Digit(d: nat): char
    requires d < 10
  {
    '0' + d as char
  }

  /** sprintf("%0wd", n) for a positive width `w`: padded with zeros, wider than `w` only if it has to be. */
  function Padded(n: nat, w: nat): string
    decreases n + w
  {
    if n == 0 && w == 0 then ""
    else Padded(n / 10, if w == 0 then 0 else w - 1) + [Digit(n % 10)]
  }

  /** atoi on a string without sign or leading blanks: the value of the leading digits. */
  function Atoi(s: string): nat {
    AtoiFrom(s, 0)
  }

  function AtoiFrom(s: string, acc: nat): nat {
    if s == "" || !IsDigit(s[0]) then acc
    else AtoiFrom(s[1..], 10 * acc + (s[0] as int - '0' as int))
  }

  ghost predicate AllDigits(s: string) {
    forall c | c in s :: IsDigit(c)
  }

  lemma {:induction false} PaddedDigits(n: nat, w: nat)
    ensures AllDigits(Padded(n, w))
    decreases n + w
  {
    if n != 0 || w != 0 {
      PaddedDigits(n / 10, if w == 0 then 0 else w - 1);
    }
  }

  lemma {:induction false} AtoiFromSnoc(s: string, d: nat, acc: nat)
    requires AllDigits(s) && d < 10
    ensures AtoiFrom(s + [Digit(d)], acc) == 10 * AtoiFrom(s, acc) + d
  {
    var t := s + [Digit(d)];
    if s == "" {
      assert AtoiFrom(t, acc) == AtoiFrom(t[1..], 10 * acc + d);
    } else {
      assert s[0] in s && t[1..] == s[1..] + [Digit(d)];
      AtoiFromSnoc(s[1..], d, 10 * acc + (s[0] as int - '0' as int));
    }
  }

  /** Reading back what was printed. */
  lemma {:induction false} AtoiPadded(n: nat, w: nat)
    ensures Atoi(Padded(n, w)) == n
    decreases n + w
  {
    if n != 0 || w != 0 {
      var v := if w == 0 then 0 else w - 1;
      AtoiPadded(n / 10, v);
      PaddedDigits(n / 10, v);
      AtoiFromSnoc(Padded(n / 10, v), n % 10, 0);
    }
  }

  function Pow10(w: nat): nat {
    if w == 0 then 1 else 10 * Pow10(w - 1)
  }

  /** The field keeps its width exactly as long as the number has no more digits than that. */
  lemma {:induction false} PaddedWidth(n: nat, w: nat)
    ensures |Padded(n, w)| >= w
    ensures |Padded(n, w)| == w <==> n < Pow10(w)
    decreases n + w
  {
    if n != 0 || w != 0 {
      var v := if w == 0 then 0 else w - 1;
      PaddedWidth(n / 10, v);
    }
  }

  /** Position `i` from the right holds the digit for 10 to the `i`. */
  lemma {:induction false} PaddedDigitAt(n: nat, w: nat, i: nat)
    requires i < |Padded(n, w)|
    ensures Pow10(i) > 0
    ensures Padded(n, w)[|Padded(n, w)| - 1 - i] as int - '0' as int == n / Pow10(i) % 10
    decreases n + w
  {
    if i > 0 {
      PaddedDigitAt(n / 10, if w == 0 then 0 else w - 1, i - 1);
      DivideByTens(n, Pow10(i - 1));
    } else {
      assert Padded(n, w)[|Padded(n, w)| - 1] == Digit(n % 10);
    }
  }

  lemma DivideByTens(n: nat, t: nat)
    requires t > 0
    ensures n / 10 / t == n / (10 * t)
  {
    var q, p := n / 10, n / 10 / t;
    assert p * t <= q < (p + 1) * t;
    assert p * (10 * t) == 10 * (p * t) && (p + 1) * (10 * t) == 10 * ((p + 1) * t);
    assert p * (10 * t) <= n < (p + 1) * (10 * t);
    var r := n / (10 * t);
    assert r * (10 * t) <= n < (r + 1) * (10 * t);
    if r < p {
      TimesMonotone(r + 1, p, 10 * t);
    }
  }

  lemma TimesMonotone(a: nat, b: nat, c: nat)
    requires a <= b
    ensures a * c <= b * c
  {}

  lemma FieldWidths(id: nat, counter: nat)
    ensures |Padded(id, 3)| == 3 <==> id <= 999
    ensures |Padded(counter, 2)| == 2 <==> counter <= 99
    ensures Atoi(Padded(id, 3)) == id && Atoi(Padded(counter, 2)) == counter
  {
    PaddedWidth(id, 3);
    PaddedWidth(counter, 2);
    AtoiPadded(id, 3);
    AtoiPadded(counter, 2);
    assert Pow10(3) == 10 * Pow10(2) == 100 * Pow10(1) == 1000;
  }

  // ------------------------------------------------------------- C strings

  const NUL: char := '\0'

  ghost predicate NoNul(s: string) {
    NUL !in s
  }

  /** What a char array holds up to its terminator, as strlen and strcat see it. */
  function CStr(s: string): string {
    if s == "" || s[0] == NUL then "" else [s[0]] + CStr(s[1..])
  }

  /** The string is the bytes written before the terminator exactly if none of them is NUL. */
  lemma {:induction false} CStrWhole(s: string)
    ensures NoNul(CStr(s)) && |CStr(s)| <= |s|
    ensures CStr(s) == s <==> NoNul(s)
    ensures CStr(s + [NUL]) == CStr(s)
  {
    if s != "" {
      assert s == [s[0]] + s[1..];
      assert (s + [NUL])[1..] == s[1..] + [NUL];
      CStrWhole(s[1..]);
    }
  }

  // ----------------------------------------------------------------- files

  function Zeros(n: nat): string {
    seq(n, _ => NUL)
  }

  /** The bytes of a file after `s` has been written at offset `pos`; a gap is filled with zero bytes. */
  function Overwrite(data: string, pos: nat, s: string): string {
    if pos > |data| then data + Zeros(pos - |data|) + s
    else data[..pos] + s + if pos + |s| <= |data| then data[pos + |s|..] else ""
  }

  /** What reading up to `n` bytes at offset `pos` gives. */
  function ReadAt(data: string, pos: nat, n: nat): string {
    if pos >= |data| then "" else if pos + n <= |data| then data[pos..pos + n] else data[pos..]
  }

  /** Byte `i` afterwards: what was written, what was there, or zero in a gap. */
  lemma OverwriteAt(data: string, pos: nat, s: string, i: nat)
    ensures |Overwrite(data, pos, s)| == if pos + |s| >= |data| then pos + |s| else |data|
    ensures i < |Overwrite(data, pos, s)| ==>
              Overwrite(data, pos, s)[i] == if pos <= i < pos + |s| then s[i - pos] else if i < |data| then data[i] else NUL
  {}

  /** Reading gives the bytes there are, at most `n`, and those of the file. */
  lemma ReadAtIs(data: string, pos: nat, n: nat, i: nat)
    ensures |ReadAt(data, pos, n)| == if pos >= |data| then 0 else if pos + n <= |data| then n else |data| - pos
    ensures i < |ReadAt(data, pos, n)| ==> ReadAt(data, pos, n)[i] == data[pos + i]
  {}

  class ByteFile {
    var data: string
    var pos: nat

    constructor ()
      ensures data == "" && pos == 0
    {
      data, pos := "", 0;
    }

    /** fopen, and rewind: the content as it is, the position at the start. */
    method Open()
      modifies this`pos
      ensures pos == 0
    {
      pos := 0;
    }

    /** fseek with SEEK_SET; the position may lie beyond the end. */
    method SeekSet(offset: nat)
      modifies this`pos
      ensures pos == offset
    {
      pos := offset;
    }

    method SeekCur(offset: int)
      requires pos + offset >= 0
      modifies this`pos
      ensures pos == old(pos) + offset
    {
      pos := pos + offset;
    }

    method SeekEnd()
      modifies this`pos
      ensures pos == |data|
    {
      pos := |data|;
    }

    /** fread of up to `n` bytes. */
    method Read(n: nat) returns (s: string)
      modifies this`pos
      ensures s == ReadAt(data, old(pos), n) && pos == old(pos) + |s|
    {
      s := ReadAt(data, pos, n);
      pos := pos + |s|;
    }

    /** fwrite at the current position. */
    method Write(s: string)
      modifies this
      ensures data == Overwrite(old(data), old(pos), s) && pos == old(pos) + |s|
    {
      data := Overwrite(data, pos, s);
      pos := pos + |s|;
    }
  }
}

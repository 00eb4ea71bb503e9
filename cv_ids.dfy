/**
 * Identifiers the vocabulary generator derives from a term: the global code
 * of the CVID enumeration (one block of codes per input ontology), the
 * enumerator name, the include-guard name, and the accession string
 * `<prefix>:<seven-digit id>` written into the term table.
 */
module CvIds {
  import opened Ascii

  /** Size of the block of codes given to each ontology (`enumBlockSize_`). */
  const EnumBlockSize: nat := 100000000

  /** Minimum width of the numeric part of an accession, which is padded with `0` (`setw(7)`, `setfill('0')`). */
  const IdWidth: nat := 7

  /**
   * `enumValue`: the global code of the term with local id `id` in the
   * ontology at position `index` of the input list.
   */
  function EnumValue(id: nat, index: nat): (code: nat)
    ensures id < EnumBlockSize ==> code / EnumBlockSize == index && code % EnumBlockSize == id
    ensures index == 0 ==> code == id
  {
    id + EnumBlockSize * index
  }

  /** The inverse of `EnumValue`: the ontology position and the local id behind a code. */
  function BlockOf(code: nat): (r: (nat, nat))
    ensures r.1 < EnumBlockSize
    ensures EnumValue(r.1, r.0) == code
  {
    (code / EnumBlockSize, code % EnumBlockSize)
  }

  /** Decomposing a code made from a local id below the block size gives back its parts. */
  lemma BlockOfEnumValue(id: nat, index: nat)
    requires id < EnumBlockSize
    ensures BlockOf(EnumValue(id, index)) == (index, id)
  {
  }

  /** Two terms get the same code only when they have the same ontology position and local id. */
  lemma EnumValueInjective(id1: nat, index1: nat, id2: nat, index2: nat)
    requires id1 < EnumBlockSize && id2 < EnumBlockSize
    requires EnumValue(id1, index1) == EnumValue(id2, index2)
    ensures id1 == id2 && index1 == index2
  {
    BlockOfEnumValue(id1, index1);
    BlockOfEnumValue(id2, index2);
  }

  /** `toAllowableChar`: alphanumeric characters are kept, every other one becomes `_`. */
  function ToAllowableChar(a: char): (r: char)
    ensures IsAlnum(r) || r == '_'
    ensures IsAlnum(a) ==> r == a
    ensures !IsAlnum(a) ==> r == '_'
  {
    if IsAlnum(a) then a else '_'
  }

  /** `ToAllowableChar` applied to each character (the `transform` in `enumName`). */
  function AllowableChars(s: string): (r: string)
    ensures |r| == |s|
    ensures forall i :: 0 <= i < |s| ==> r[i] == ToAllowableChar(s[i])
  {
    if s == [] then [] else [ToAllowableChar(s[0])] + AllowableChars(s[1..])
  }

  /** `enumName(prefix, name)`: the enumerator name of a term or synonym. */
  function EnumName(prefix: string, name: string): (r: string)
    ensures |r| == |prefix| + 1 + |name|
    ensures r[..|prefix|] == prefix && r[|prefix|] == '_'
    ensures forall i :: 0 <= i < |name| ==> r[|prefix| + 1 + i] == ToAllowableChar(name[i])
  {
    prefix + "_" + AllowableChars(name)
  }

  /**
   * After the prefix, an enumerator name holds only letters, digits and
   * underscores, and a name that is already alphanumeric is kept verbatim.
   */
  lemma EnumNameIsIdentifier(prefix: string, name: string)
    ensures forall i :: |prefix| < i < |EnumName(prefix, name)| ==>
      IsAlnum(EnumName(prefix, name)[i]) || EnumName(prefix, name)[i] == '_'
    ensures (forall i :: 0 <= i < |name| ==> IsAlnum(name[i])) ==> EnumName(prefix, name) == prefix + "_" + name
  {
    var r := EnumName(prefix, name);
    forall i | |prefix| < i < |r|
      ensures IsAlnum(r[i]) || r[i] == '_'
    {
      assert r[|prefix| + 1 + (i - |prefix| - 1)] == ToAllowableChar(name[i - |prefix| - 1]);
    }
    if forall i :: 0 <= i < |name| ==> IsAlnum(name[i]) {
      assert r == prefix + "_" + name;
    }
  }

  /**
   * A prefix that an enumerator name can start with: letters, digits and
   * underscores, the first not a digit.
   */
  predicate IdentifierPrefix(prefix: string) {
    (forall i :: 0 <= i < |prefix| ==> IsAlnum(prefix[i]) || prefix[i] == '_')
    && (prefix != [] ==> !IsDigit(prefix[0]))
  }

  /**
   * With such a prefix an enumerator name is a C++ identifier: it does not
   * start with a digit and holds only letters, digits and underscores.
   */
  lemma EnumNameIsIdentifierWhole(prefix: string, name: string)
    requires IdentifierPrefix(prefix)
    ensures !IsDigit(EnumName(prefix, name)[0])
    ensures forall i :: 0 <= i < |EnumName(prefix, name)| ==>
      IsAlnum(EnumName(prefix, name)[i]) || EnumName(prefix, name)[i] == '_'
  {
    EnumNameIsIdentifier(prefix, name);
    var r := EnumName(prefix, name);
    forall i | 0 <= i < |prefix| ensures IsAlnum(r[i]) || r[i] == '_' {
      assert r[..|prefix|][i] == r[i];
    }
  }

  /** `includeGuardString`: `_`, the upper-cased base name, then `_HPP_`. */
  function IncludeGuardString(basename: string): (r: string)
    ensures |r| == |basename| + 6
    ensures r[0] == '_' && r[|r| - 5..] == "_HPP_"
    ensures forall i :: 0 <= i < |basename| ==> r[1 + i] == ToUpper(basename[i])
    ensures forall i :: 0 <= i < |r| ==> !IsLower(r[i])
  {
    "_" + UpperString(basename) + "_HPP_"
  }

  predicate AllDigits(s: string) {
    forall i :: 0 <= i < |s| ==> IsDigit(s[i])
  }

  function DigitChar(d: nat): (c: char)
    requires d < 10
    ensures IsDigit(c) && c as int - '0' as int == d
  {
    ('0' as int + d) as char
  }

  /** The decimal digits of `n`, most significant first, without leading zeros. */
  function Decimal(n: nat): (s: string)
    ensures 1 <= |s| && AllDigits(s)
    ensures n > 0 ==> s[0] != '0'
    decreases n
  {
    if n < 10 then [DigitChar(n)] else Decimal(n / 10) + [DigitChar(n % 10)]
  }

  /** The number a string of decimal digits denotes (the accumulation of `strtoul`). */
  function DigitsValue(s: string): nat
    requires AllDigits(s)
  {
    if s == [] then 0
    else DigitsValue(s[..|s| - 1]) * 10 + (s[|s| - 1] as int - '0' as int)
  }

  /** `Decimal` and `DigitsValue` are inverse to each other. */
  lemma {:induction false} DigitsValueDecimal(n: nat)
    ensures DigitsValue(Decimal(n)) == n
    decreases n
  {
    var s := Decimal(n);
    if n >= 10 {
      DigitsValueDecimal(n / 10);
      assert s[..|s| - 1] == Decimal(n / 10);
    }
  }

  /** `k` copies of the fill character `0`. */
  function Zeros(k: nat): (s: string)
    ensures |s| == k && AllDigits(s)
    ensures forall i :: 0 <= i < k ==> s[i] == '0'
  {
    if k == 0 then [] else Zeros(k - 1) + "0"
  }

  /** Leading zeros do not change the value of a digit string. */
  lemma {:induction false} DigitsValueZeros(k: nat, s: string)
    requires AllDigits(s)
    ensures AllDigits(Zeros(k) + s)
    ensures DigitsValue(Zeros(k) + s) == DigitsValue(s)
    decreases |s|, k
  {
    var z := Zeros(k) + s;
    assert AllDigits(z) by {
      forall i | 0 <= i < |z| ensures IsDigit(z[i]) {
        if i < k { assert z[i] == Zeros(k)[i]; } else { assert z[i] == s[i - k]; }
      }
    }
    if s == [] {
      assert z == Zeros(k);
      if k > 0 {
        assert Zeros(k)[..k - 1] == Zeros(k - 1);
        DigitsValueZeros(k - 1, []);
        assert Zeros(k - 1) + [] == Zeros(k - 1);
      }
    } else {
      assert z[..|z| - 1] == Zeros(k) + s[..|s| - 1];
      DigitsValueZeros(k, s[..|s| - 1]);
    }
  }

  /** The digits of `n` padded on the left with `0` to at least `width` characters. */
  function PaddedDecimal(n: nat, width: nat): (s: string)
    ensures AllDigits(s) && |s| >= width && |s| >= 1
  {
    var d := Decimal(n);
    if |d| >= width then d else Zeros(width - |d|) + d
  }

  /** Padding keeps the value: the padded digits still denote `n`. */
  lemma PaddedDecimalValue(n: nat, width: nat)
    ensures DigitsValue(PaddedDecimal(n, width)) == n
  {
    var d := Decimal(n);
    DigitsValueDecimal(n);
    if |d| < width {
      DigitsValueZeros(width - |d|, d);
    }
  }

  /** The accession written into the term table: `<prefix>:<id padded to seven digits>`. */
  function IdString(prefix: string, id: nat): (s: string)
    ensures |s| >= |prefix| + 1 + IdWidth
    ensures s[..|prefix|] == prefix && s[|prefix|] == ':'
    ensures AllDigits(s[|prefix| + 1..])
    ensures DigitsValue(s[|prefix| + 1..]) == id
  {
    PaddedDecimalValue(id, IdWidth);
    var s := prefix + ":" + PaddedDecimal(id, IdWidth);
    assert s[|prefix| + 1..] == PaddedDecimal(id, IdWidth);
    s
  }

  /**
   * `setw(width)` with `setfill('0')`: exactly `width` characters when the
   * digits are fewer, otherwise the digits alone; the digits come last and
   * everything before them is `0`.
   */
  lemma PaddedDecimalWidth(n: nat, width: nat)
    ensures var s := PaddedDecimal(n, width);
      |s| == (if |Decimal(n)| >= width then |Decimal(n)| else width)
      && s[|s| - |Decimal(n)|..] == Decimal(n)
      && forall i :: 0 <= i < |s| - |Decimal(n)| ==> s[i] == '0'
  {
  }

  /** The number part of an accession is the id padded to exactly `IdWidth` digits, or its digits when longer. */
  lemma IdStringDigits(prefix: string, id: nat)
    ensures var s := IdString(prefix, id);
      s[|prefix| + 1..] == PaddedDecimal(id, IdWidth)
      && |s| == |prefix| + 1 + (if |Decimal(id)| >= IdWidth then |Decimal(id)| else IdWidth)
  {
    PaddedDecimalWidth(id, IdWidth);
    assert IdString(prefix, id) == prefix + ":" + PaddedDecimal(id, IdWidth);
  }
}

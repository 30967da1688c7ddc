/**
 * The corpus naming scheme. A document for character `c` (and optional
 * variant `v`) is stored under its "ascii filename": the code point of `c`
 * as a zero-padded lower-case hex numeral, then `-v` when a variant is
 * given, then `.svg`. Its colourised output is written under the
 * "character filename": `c` itself, the same variant suffix, then `.svg`.
 */
module Codec {
  import opened Wrappers
  import Hex

  const Extension: string := ".svg"

  /** The values a `char` (a Unicode scalar value) can take. */
  predicate IsScalar(n: int) {
    0 <= n < 0xD800 || 0xE000 <= n < 0x11_0000
  }

  function VariantSuffix(variant: string): string {
    if variant == "" then "" else "-" + variant
  }

  /** The name a document is stored under (see `AsciiFilenameShape`). */
  function AsciiFilename(c: char, variant: string): string {
    Hex.Encode(c as int) + VariantSuffix(variant) + Extension
  }

  /** The name an output is written under: the character itself, then the variant suffix, then `.svg`. */
  function CharacterFilename(c: char, variant: string): string {
    [c] + VariantSuffix(variant) + Extension
  }

  /** What a well-formed corpus filename names. */
  datatype Decoded = Decoded(character: char, variant: string)

  /** The position of the first `ch` in `s`, if any. */
  function IndexOf(s: string, ch: char): (r: Option<nat>)
    ensures r.None? ==> ch !in s
    ensures r.Some? ==> r.value < |s| && s[r.value] == ch && ch !in s[..r.value]
  {
    if |s| == 0 then None
    else if s[0] == ch then Some(0)
    else
      match IndexOf(s[1..], ch)
      case None => None
      case Some(i) =>
        assert s[..i + 1] == [s[0]] + s[1..][..i];
        Some(i + 1)
  }

  /** Splits a filename stem at its first `-` into numeral and variant. */
  function SplitStem(stem: string): (string, string) {
    match IndexOf(stem, '-')
    case None => (stem, "")
    case Some(i) => (stem[..i], stem[i + 1..])
  }

  /**
   * Parses `<hex>[-<variant>].svg`. Fails for a name without the `.svg`
   * extension, an empty or non-hex numeral, a `-` with nothing after it,
   * or a numeral that is not a Unicode scalar value.
   */
  function Decode(name: string): Option<Decoded> {
    if |name| < |Extension| || name[|name| - |Extension|..] != Extension then None
    else
      var stem := name[..|name| - |Extension|];
      var (numeral, variant) := SplitStem(stem);
      if '-' in stem && variant == "" then None
      else
        match Hex.Decode(numeral)
        case None => None
        case Some(n) => if IsScalar(n) then Some(Decoded(n as char, variant)) else None
  }

  /** `IndexOf` finds the first occurrence: a `ch` at `k` with none before it. */
  lemma {:induction false} IndexOfFirst(s: string, ch: char, k: nat)
    requires k < |s| && s[k] == ch
    requires forall j :: 0 <= j < k ==> s[j] != ch
    ensures IndexOf(s, ch) == Some(k)
  {
    if k > 0 {
      IndexOfFirst(s[1..], ch, k - 1);
    }
  }

  /** A hex numeral holds no `-`. */
  lemma HexHasNoDash(numeral: string)
    requires Hex.IsHexString(numeral)
    ensures forall i :: 0 <= i < |numeral| ==> numeral[i] != '-'
  {
    forall i | 0 <= i < |numeral|
      ensures numeral[i] != '-'
    {
      assert Hex.IsHexDigit(numeral[i]);
    }
  }

  /** How `numeral + VariantSuffix(variant)` splits back apart. */
  lemma SplitStemOf(numeral: string, variant: string)
    requires Hex.IsHexString(numeral)
    ensures SplitStem(numeral + VariantSuffix(variant)) == (numeral, variant)
    ensures '-' in numeral + VariantSuffix(variant) <==> variant != ""
  {
    var stem := numeral + VariantSuffix(variant);
    HexHasNoDash(numeral);
    if variant == "" {
      assert stem == numeral;
    } else {
      assert stem == numeral + ['-'] + variant;
      assert stem[|numeral|] == '-';
      assert forall j :: 0 <= j < |numeral| ==> stem[j] == numeral[j];
      IndexOfFirst(stem, '-', |numeral|);
      assert stem[..|numeral|] == numeral;
      assert stem[|numeral| + 1..] == variant;
    }
  }

  /**
   * Every name of the form `<hex>[-<variant>].svg` decodes to the code
   * point the numeral spells and the variant after the dash; the numeral
   * may have any number of digits and either case.
   */
  lemma DecodeWellFormed(numeral: string, variant: string)
    requires |numeral| > 0 && Hex.IsHexString(numeral)
    ensures Decode(numeral + VariantSuffix(variant) + Extension)
         == if IsScalar(Hex.Value(numeral))
            then Some(Decoded(Hex.Value(numeral) as char, variant))
            else None
  {
    var stem := numeral + VariantSuffix(variant);
    var name := stem + Extension;
    assert name[|name| - |Extension|..] == Extension;
    assert name[..|name| - |Extension|] == stem;
    SplitStemOf(numeral, variant);
  }

  /** Round trip: the ascii filename of `(c, variant)` decodes to `(c, variant)`. */
  lemma DecodeAsciiFilename(c: char, variant: string)
    ensures Decode(AsciiFilename(c, variant)) == Some(Decoded(c, variant))
  {
    var numeral := Hex.Encode(c as int);
    Hex.DecodeEncode(c as int);
    DecodeWellFormed(numeral, variant);
  }

  /** A name built from a numeral splits back into the numeral and the rest. */
  lemma NameParts(numeral: string, variant: string)
    ensures var name := numeral + VariantSuffix(variant) + Extension;
            var k := |name| - |VariantSuffix(variant)| - |Extension|;
            && k == |numeral|
            && name[..k] == numeral
            && name[k..] == VariantSuffix(variant) + Extension
  {
    var name := numeral + VariantSuffix(variant) + Extension;
    assert name == numeral + (VariantSuffix(variant) + Extension);
  }

  /**
   * The ascii filename of `(c, variant)` is a lower-case hex numeral of at
   * least five digits whose value is the code point of `c`, followed by
   * the variant suffix and `.svg`.
   */
  lemma AsciiFilenameShape(c: char, variant: string)
    ensures var name := AsciiFilename(c, variant);
            var k := |name| - |VariantSuffix(variant)| - |Extension|;
            && Hex.MinWidth <= k
            && Hex.IsLowerHexString(name[..k])
            && Hex.Value(name[..k]) == c as int
            && name[k..] == VariantSuffix(variant) + Extension
  {
    var numeral := Hex.Encode(c as int);
    var name := AsciiFilename(c, variant);
    assert name == numeral + VariantSuffix(variant) + Extension;
    NameParts(numeral, variant);
    var k := |name| - |VariantSuffix(variant)| - |Extension|;
    assert name[..k] == numeral;
    Hex.DecodeEncode(c as int);
    assert Hex.Value(numeral) == c as int;
    Hex.EncodeWidth(c as int);
  }

  /** Two documents never share an ascii filename. */
  lemma AsciiFilenameInjective(c1: char, v1: string, c2: char, v2: string)
    requires AsciiFilename(c1, v1) == AsciiFilename(c2, v2)
    ensures c1 == c2 && v1 == v2
  {
    DecodeAsciiFilename(c1, v1);
    DecodeAsciiFilename(c2, v2);
  }

  /**
   * Every name Decode accepts has the shape `<hex>[-<variant>].svg`, with a
   * numeral whose value is the decoded code point.
   */
  lemma DecodeSound(name: string)
    requires Decode(name).Some?
    ensures exists k :: 0 < k <= |name| - |Extension|
                     && name == name[..k] + VariantSuffix(Decode(name).value.variant) + Extension
                     && Hex.Decode(name[..k]) == Some(Decode(name).value.character as int)
  {
    var d := Decode(name).value;
    var stem := name[..|name| - |Extension|];
    assert name == stem + Extension;
    var (numeral, variant) := SplitStem(stem);
    assert variant == d.variant;
    var i := IndexOf(stem, '-');
    var k := if i.None? then |stem| else i.value;
    assert numeral == stem[..k];
    assert stem[..k] == name[..k];
    var n := Hex.Decode(numeral).value;
    assert IsScalar(n) && d.character == n as char;
    if i.Some? {
      assert variant != "";
      assert stem == stem[..k] + ['-'] + stem[k + 1..];
      assert stem == stem[..k] + VariantSuffix(variant);
    } else {
      assert stem == stem[..k] + VariantSuffix(variant);
    }
    assert name == name[..k] + VariantSuffix(d.variant) + Extension;
    assert 0 < k <= |name| - |Extension|;
  }

  /**
   * The other direction of the round trip: a name with a canonical numeral
   * decodes to a document whose ascii filename is that same name.
   */
  lemma EncodeDecoded(numeral: string, variant: string)
    requires Hex.IsCanonical(numeral)
    requires Hex.IsHexString(numeral) && IsScalar(Hex.Value(numeral))
    ensures Decode(numeral + VariantSuffix(variant) + Extension).Some?
    ensures var d := Decode(numeral + VariantSuffix(variant) + Extension).value;
            AsciiFilename(d.character, d.variant) == numeral + VariantSuffix(variant) + Extension
  {
    DecodeWellFormed(numeral, variant);
    Hex.EncodeValue(numeral);
  }

  /** A name without the `.svg` extension is rejected. */
  lemma DecodeRequiresExtension(name: string)
    requires |name| < |Extension| || name[|name| - |Extension|..] != Extension
    ensures Decode(name).None?
  {
  }

  /** A dash with no variant after it is rejected. */
  lemma DecodeRejectsEmptyVariant(numeral: string)
    requires Hex.IsHexString(numeral)
    ensures Decode(numeral + "-" + Extension).None?
  {
    var stem := numeral + "-";
    var name := stem + Extension;
    assert name[|name| - |Extension|..] == Extension;
    assert name[..|name| - |Extension|] == stem;
    assert stem[|numeral|] == '-';
    var i := IndexOf(stem, '-').value;
    assert stem[i + 1..] == [];
  }

  /** The output file of a document starts with the character itself. */
  lemma CharacterFilenameStartsWithCharacter(c: char, variant: string)
    ensures CharacterFilename(c, variant)[0] == c
    ensures CharacterFilename(c, "") == [c] + Extension
  {
  }

  /** Two documents never share an output file. */
  lemma CharacterFilenameInjective(c1: char, v1: string, c2: char, v2: string)
    requires CharacterFilename(c1, v1) == CharacterFilename(c2, v2)
    ensures c1 == c2 && v1 == v2
  {
    var n1 := CharacterFilename(c1, v1);
    var n2 := CharacterFilename(c2, v2);
    assert n1[0] == c1 && n2[0] == c2;
    assert n1[1..|n1| - |Extension|] == VariantSuffix(v1);
    assert n2[1..|n2| - |Extension|] == VariantSuffix(v2);
    if v1 != "" && v2 != "" {
      assert VariantSuffix(v1)[1..] == v1;
      assert VariantSuffix(v2)[1..] == v2;
    }
  }
}

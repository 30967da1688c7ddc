/**
 * The concrete cases the test suite checks, stated over the model. Each
 * corpus here is a parameter constrained only at the entries the case
 * touches. Characters are written as escapes: U+6905 椅, U+53BB 去,
 * U+5B57 字, U+6F22 漢, U+3042 あ, U+041B Л.
 */
module Scenarios {
  import opened Wrappers
  import Codec
  import Hex
  import opened Resolver
  import Batch

  /** 椅 is stored as `06905.svg` and written as `椅.svg`. */
  lemma FilenamesOfChair()
    ensures Codec.AsciiFilename('\U{6905}', "") == "06905.svg"
    ensures Codec.CharacterFilename('\U{6905}', "") == "\U{6905}.svg"
  {
    assert Hex.Digits(0x6905) == "6905" by {
      assert Hex.Digits(0x6) == "6";
      assert Hex.Digits(0x69) == "69";
      assert Hex.Digits(0x690) == "690";
    }
    assert Hex.Zeros(1) == "0";
  }

  /** `06905.svg` decodes to 椅 with no variant; `5b57` is not a corpus filename. */
  lemma DecodeExamples()
    ensures Codec.Decode("06905.svg") == Some(Codec.Decoded('\U{6905}', ""))
    ensures Codec.Decode("5b57") == None
  {
    FilenamesOfChair();
    Codec.DecodeAsciiFilename('\U{6905}', "");
  }

  /** `_create_from_filename('06905.svg')` yields 椅 with an empty variant when the file is there. */
  lemma CreateChairFromFilename(corpus: Corpus)
    requires Read(corpus, "06905.svg").Contents?
    ensures ResolveByFilename(corpus, "06905.svg") == Success(KanjiVG('\U{6905}', "", Read(corpus, "06905.svg").svg))
  {
    FilenamesOfChair();
    ResolveByAsciiFilename(corpus, '\U{6905}', "");
  }

  /** A well-formed name with no file, `10000.svg`, fails. */
  lemma MissingFileFails(corpus: Corpus)
    requires Read(corpus, "10000.svg") == NotFound
    ensures ResolveByFilename(corpus, "10000.svg") == Failure(InvalidCharacter("\U{10000}", ""))
  {
    assert Codec.AsciiFilename('\U{10000}', "") == "10000.svg" by {
      assert Hex.Digits(0x1) == "1";
      assert Hex.Digits(0x10) == "10";
      assert Hex.Digits(0x100) == "100";
      assert Hex.Digits(0x1000) == "1000";
      assert Hex.Digits(0x10000) == "10000";
    }
    ResolveByAsciiFilename(corpus, '\U{10000}', "");
  }

  /** 去 loads the document stored under `053bb.svg`, with an empty variant. */
  lemma ResolveGo(corpus: Corpus)
    requires Read(corpus, "053bb.svg").Contents?
    ensures Resolve(corpus, "\U{53BB}", None) == Success(KanjiVG('\U{53BB}', "", Read(corpus, "053bb.svg").svg))
  {
    assert Codec.AsciiFilename('\U{53BB}', "") == "053bb.svg" by {
      assert Hex.Digits(0x5) == "5";
      assert Hex.Digits(0x53) == "53";
      assert Hex.Digits(0x53B) == "53b";
      assert Hex.Digits(0x53BB) == "53bb";
      assert Hex.Zeros(1) == "0";
    }
  }

  /** Л, absent from the corpus, fails with `('Л', '')`. */
  lemma UnknownCharacter(corpus: Corpus)
    requires Read(corpus, "0041b.svg") == NotFound
    ensures Resolve(corpus, "\U{041B}", None) == Failure(InvalidCharacter("\U{041B}", ""))
  {
    assert Codec.AsciiFilename('\U{041B}', "") == "0041b.svg" by {
      assert Hex.Digits(0x4) == "4";
      assert Hex.Digits(0x41) == "41";
      assert Hex.Digits(0x41B) == "41b";
      assert Hex.Zeros(2) == "00";
    }
  }

  lemma NumeralOfCharacter()
    ensures Hex.Encode(0x5B57) == "05b57"
  {
    assert Hex.Digits(0x5) == "5";
    assert Hex.Digits(0x5B) == "5b";
    assert Hex.Digits(0x5B5) == "5b5";
    assert Hex.Digits(0x5B57) == "5b57";
    assert Hex.Zeros(1) == "0";
  }

  lemma FilenameOfCharacterVariant()
    ensures Codec.AsciiFilename('\U{5B57}', "gobbledygook") == "05b57-gobbledygook.svg"
  {
    NumeralOfCharacter();
    var suffix := Codec.VariantSuffix("gobbledygook");
    assert suffix == "-gobbledygook";
    assert "05b57" + suffix + ".svg" == "05b57-gobbledygook.svg";
  }

  /** 字 with the unknown variant `gobbledygook` fails with both inputs. */
  lemma UnknownVariant(corpus: Corpus)
    requires Read(corpus, "05b57-gobbledygook.svg") == NotFound
    ensures Resolve(corpus, "\U{5B57}", Some("gobbledygook"))
         == Failure(InvalidCharacter("\U{5B57}", "gobbledygook"))
  {
    var c, v := '\U{5B57}', "gobbledygook";
    assert "\U{5B57}" == [c];
    assert RequestedVariant(Some(v)) == v;
    FilenameOfCharacterVariant();
    assert Read(corpus, Codec.AsciiFilename(c, v)) == NotFound;
    ResolveNotFound(corpus, c, Some(v));
  }

  /** Two characters, no character, or an explicit empty variant, all fail whatever the corpus. */
  lemma BadArguments(corpus: Corpus)
    ensures Resolve(corpus, "\U{6F22}\U{5B57}", None) == Failure(InvalidCharacter("\U{6F22}\U{5B57}", ""))
    ensures Resolve(corpus, "", None) == Failure(InvalidCharacter("", ""))
    ensures Resolve(corpus, "\U{5B57}", Some("")) == Failure(InvalidCharacter("\U{5B57}", ""))
  {
  }

  /** A permission fault while reading `a`'s file reaches the caller unchanged. */
  lemma PermissionDenied(corpus: Corpus)
    requires Read(corpus, "00061.svg") == Fault(IOFault(31, "Permission denied"))
    ensures Resolve(corpus, "a", None) == Failure(IOError(IOFault(31, "Permission denied")))
  {
    assert Codec.AsciiFilename('a', "") == "00061.svg" by {
      assert Hex.Digits(0x6) == "6";
      assert Hex.Digits(0x61) == "61";
      assert Hex.Zeros(3) == "000";
    }
  }

  /** With 漢 and 字 in the corpus, `漢字` writes `漢.svg` then `字.svg`. */
  lemma WritesTwo(corpus: Corpus)
    requires Batch.Writable(corpus, '\U{6F22}') && Batch.Writable(corpus, '\U{5B57}')
    ensures Batch.Selection(corpus, "\U{6F22}\U{5B57}") == ["\U{6F22}.svg", "\U{5B57}.svg"]
  {
    assert "\U{6F22}\U{5B57}" == ['\U{6F22}', '\U{5B57}'];
    Batch.SelectionOfTwo(corpus, '\U{6F22}', '\U{5B57}');
    Codec.CharacterFilenameStartsWithCharacter('\U{6F22}', "");
    Codec.CharacterFilenameStartsWithCharacter('\U{5B57}', "");
    assert "\U{6F22}.svg" == ['\U{6F22}'] + Codec.Extension;
    assert "\U{5B57}.svg" == ['\U{5B57}'] + Codec.Extension;
  }

  /** `あЛ` and `Лあ` both write `あ.svg` when Л is unknown. */
  lemma InvalidBeforeOrAfter(corpus: Corpus)
    requires Batch.Writable(corpus, '\U{3042}') && !Batch.Writable(corpus, '\U{041B}')
    ensures Batch.Selection(corpus, "\U{3042}\U{041B}") == ["\U{3042}.svg"]
    ensures Batch.Selection(corpus, "\U{041B}\U{3042}") == ["\U{3042}.svg"]
  {
    assert "\U{3042}\U{041B}" == ['\U{3042}', '\U{041B}'];
    assert "\U{041B}\U{3042}" == ['\U{041B}', '\U{3042}'];
    Batch.SelectionSkipsNeighbour(corpus, '\U{3042}', '\U{041B}');
    Codec.CharacterFilenameStartsWithCharacter('\U{3042}', "");
    assert "\U{3042}.svg" == ['\U{3042}'] + Codec.Extension;
  }
}

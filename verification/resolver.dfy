/**
 * Character resolution: finding and loading the stroke-path document of a
 * character (and optional variant) in the corpus, resolving a document
 * from its corpus filename, and listing every document of the corpus.
 *
 * The corpus directory is abstracted as a map from filename to what
 * reading that file yields; a name that is not a key reads as not found.
 */
module Resolver {
  import opened Wrappers
  import Codec

  /** An operating-system read failure other than "not found". */
  datatype IOFault = IOFault(errno: int, reason: string)

  datatype ReadOutcome = Contents(svg: string) | NotFound | Fault(fault: IOFault)

  type Corpus = map<string, ReadOutcome>

  function Read(corpus: Corpus, name: string): ReadOutcome {
    if name in corpus then corpus[name] else NotFound
  }

  datatype Error =
    | /** Bad caller input: wrong length, unknown character or variant. */
      InvalidCharacter(character: string, variant: string)
    | /** A filename not of the form `<hex>[-<variant>].svg`. */
      MalformedFilename(name: string)
    | /** A read fault, passed on untouched. */
      IOError(fault: IOFault)

  /** A loaded stroke-path document. */
  datatype KanjiVG = KanjiVG(character: char, variant: string, svg: string) {
    function AsciiFilename(): string {
      Codec.AsciiFilename(character, variant)
    }

    function CharacterFilename(): string {
      Codec.CharacterFilename(character, variant)
    }
  }

  /** The variant a call asks for: empty when none was supplied. */
  function RequestedVariant(variant: Option<string>): string {
    variant.GetOr("")
  }

  /**
   * The arguments pass validation: exactly one character, and no variant
   * that was supplied explicitly but empty.
   */
  predicate ValidArguments(character: string, variant: Option<string>) {
    |character| == 1 && variant != Some("")
  }

  /**
   * `KanjiVG(character, variant)`: validates the arguments, then reads the
   * document stored under the ascii filename. A missing document is an
   * invalid character; any other read fault is passed on as it is.
   */
  function Resolve(corpus: Corpus, character: string, variant: Option<string>): (r: Result<KanjiVG, Error>)
    ensures r.Success? ==> [r.value.character] == character
    ensures r.Success? ==> r.value.variant == RequestedVariant(variant)
    ensures r.Success? ==> Read(corpus, r.value.AsciiFilename()) == Contents(r.value.svg)
    ensures r.Failure? ==> r.error == InvalidCharacter(character, RequestedVariant(variant)) || r.error.IOError?
  {
    var v := RequestedVariant(variant);
    if !ValidArguments(character, variant) then Failure(InvalidCharacter(character, v))
    else
      match Read(corpus, Codec.AsciiFilename(character[0], v))
      case Contents(svg) => Success(KanjiVG(character[0], v, svg))
      case NotFound => Failure(InvalidCharacter(character, v))
      case Fault(f) => Failure(IOError(f))
  }

  /**
   * Invalid arguments are refused before the corpus is consulted: the
   * outcome is the same invalid-character error whatever the corpus holds.
   */
  lemma ResolveValidatesFirst(corpus1: Corpus, corpus2: Corpus, character: string, variant: Option<string>)
    requires !ValidArguments(character, variant)
    ensures Resolve(corpus1, character, variant) == Resolve(corpus2, character, variant)
                                                 == Failure(InvalidCharacter(character, RequestedVariant(variant)))
  {
  }

  /** Resolution reads exactly one file: the one named by the ascii filename. */
  lemma ResolveReadsOwnEntry(corpus1: Corpus, corpus2: Corpus, c: char, variant: Option<string>)
    requires Read(corpus1, Codec.AsciiFilename(c, RequestedVariant(variant)))
          == Read(corpus2, Codec.AsciiFilename(c, RequestedVariant(variant)))
    ensures Resolve(corpus1, [c], variant) == Resolve(corpus2, [c], variant)
  {
  }

  /**
   * Resolution succeeds exactly when the arguments are valid and the
   * ascii-named file has contents; the document then carries the caller's
   * character, the requested variant (empty when none was given) and that
   * file's text.
   */
  lemma ResolveSucceedsIff(corpus: Corpus, character: string, variant: Option<string>)
    ensures Resolve(corpus, character, variant).Success?
        <==> ValidArguments(character, variant)
             && Read(corpus, Codec.AsciiFilename(character[0], RequestedVariant(variant))).Contents?
    ensures Resolve(corpus, character, variant).Success? ==>
              Resolve(corpus, character, variant).value
              == KanjiVG(character[0], RequestedVariant(variant),
                         Read(corpus, Codec.AsciiFilename(character[0], RequestedVariant(variant))).svg)
  {
  }

  /** An unknown character or variant fails with the caller's own inputs. */
  lemma ResolveNotFound(corpus: Corpus, c: char, variant: Option<string>)
    requires variant != Some("")
    requires Read(corpus, Codec.AsciiFilename(c, RequestedVariant(variant))) == NotFound
    ensures Resolve(corpus, [c], variant) == Failure(InvalidCharacter([c], RequestedVariant(variant)))
  {
  }

  /**
   * A read fault other than "not found" reaches the caller unchanged, and
   * is the only way an I/O error can come out of resolution.
   */
  lemma ResolvePropagatesFaults(corpus: Corpus, character: string, variant: Option<string>, f: IOFault)
    ensures Resolve(corpus, character, variant) == Failure(IOError(f))
        <==> ValidArguments(character, variant)
             && Read(corpus, Codec.AsciiFilename(character[0], RequestedVariant(variant))) == Fault(f)
  {
  }

  /** The optional variant argument that a decoded variant string stands for. */
  function VariantArgument(variant: string): Option<string> {
    if variant == "" then None else Some(variant)
  }

  /**
   * `_create_from_filename`: decodes the name and resolves the character
   * and variant it spells. A malformed name fails as such, distinct from a
   * well-formed name with no document.
   */
  function ResolveByFilename(corpus: Corpus, name: string): (r: Result<KanjiVG, Error>)
    ensures r == Failure(MalformedFilename(name)) <==> Codec.Decode(name).None?
    ensures r.Success? ==> Codec.Decode(name) == Some(Codec.Decoded(r.value.character, r.value.variant))
  {
    match Codec.Decode(name)
    case None => Failure(MalformedFilename(name))
    case Some(d) => Resolve(corpus, [d.character], VariantArgument(d.variant))
  }

  /** Resolving by a document's ascii filename is resolving its character and variant. */
  lemma ResolveByAsciiFilename(corpus: Corpus, c: char, variant: string)
    ensures ResolveByFilename(corpus, Codec.AsciiFilename(c, variant))
         == Resolve(corpus, [c], VariantArgument(variant))
  {
    Codec.DecodeAsciiFilename(c, variant);
  }

  /** Loading a document by its corpus filename. */
  type Loader = string -> Result<KanjiVG, Error>

  function ByFilename(corpus: Corpus): Loader {
    name => ResolveByFilename(corpus, name)
  }

  /**
   * Loads every name of `listing` in order; the first failure stops the
   * enumeration.
   */
  function LoadAll(load: Loader, listing: seq<string>): (r: Result<seq<KanjiVG>, Error>)
    ensures r.Success? ==> |r.value| == |listing|
    ensures r.Success? ==> forall i :: 0 <= i < |listing| ==> load(listing[i]) == Success(r.value[i])
    ensures r.Failure? ==> exists i :: 0 <= i < |listing| && load(listing[i]) == Failure(r.error)
  {
    if listing == [] then Success([])
    else
      match load(listing[0])
      case Failure(e) => Failure(e)
      case Success(d) =>
        assert forall j :: 0 <= j < |listing| - 1 ==> listing[1..][j] == listing[j + 1];
        match LoadAll(load, listing[1..])
        case Failure(e) => Failure(e)
        case Success(ds) => Success([d] + ds)
  }

  /**
   * `get_all`: resolves every filename of the directory listing, in listing
   * order; the first failure stops the enumeration.
   */
  function GetAll(corpus: Corpus, listing: seq<string>): (r: Result<seq<KanjiVG>, Error>)
    ensures r.Success? ==> |r.value| == |listing|
    ensures r.Success? ==> forall i :: 0 <= i < |listing| ==> ResolveByFilename(corpus, listing[i]) == Success(r.value[i])
    ensures r.Failure? ==> exists i :: 0 <= i < |listing| && ResolveByFilename(corpus, listing[i]) == Failure(r.error)
  {
    LoadAll(ByFilename(corpus), listing)
  }

  /**
   * A corpus as shipped: every file is named by the canonical ascii
   * filename of the document it holds, and is readable.
   */
  ghost predicate WellFormedCorpus(corpus: Corpus) {
    forall name :: name in corpus ==>
      && Codec.Decode(name).Some?
      && Codec.AsciiFilename(Codec.Decode(name).value.character, Codec.Decode(name).value.variant) == name
      && corpus[name].Contents?
  }

  /** `listing` names every corpus file exactly once. */
  ghost predicate Enumerates(listing: seq<string>, corpus: Corpus) {
    && (forall i, j :: 0 <= i < j < |listing| ==> listing[i] != listing[j])
    && (forall name :: name in listing <==> name in corpus)
  }

  lemma {:induction false} DistinctCardinality(listing: seq<string>)
    requires forall i, j :: 0 <= i < j < |listing| ==> listing[i] != listing[j]
    ensures |set name | name in listing| == |listing|
  {
    if listing != [] {
      var rest := listing[1..];
      DistinctCardinality(rest);
      assert (set name | name in listing) == {listing[0]} + (set name | name in rest);
      assert listing[0] !in rest by {
        forall k | 0 <= k < |rest|
          ensures rest[k] != listing[0]
        {
          assert rest[k] == listing[k + 1];
        }
      }
    }
  }

  /** A listing that names every corpus file once is as long as the corpus. */
  lemma EnumerationSize(listing: seq<string>, corpus: Corpus)
    requires Enumerates(listing, corpus)
    ensures |listing| == |corpus|
  {
    DistinctCardinality(listing);
    assert (set name | name in listing) == corpus.Keys;
  }

  /** Resolving a corpus file by its own name loads exactly that file. */
  lemma ResolveWellFormedEntry(corpus: Corpus, name: string)
    requires WellFormedCorpus(corpus)
    requires name in corpus
    ensures ResolveByFilename(corpus, name).Success?
    ensures ResolveByFilename(corpus, name).value.AsciiFilename() == name
    ensures Contents(ResolveByFilename(corpus, name).value.svg) == corpus[name]
  {
    var d := Codec.Decode(name).value;
    assert Codec.AsciiFilename(d.character, RequestedVariant(VariantArgument(d.variant))) == name;
  }

  /**
   * Over a well-formed corpus, `get_all` yields one document per corpus
   * file, in listing order, each the successful resolution of its own
   * character and variant.
   */
  lemma GetAllComplete(corpus: Corpus, listing: seq<string>)
    requires WellFormedCorpus(corpus)
    requires Enumerates(listing, corpus)
    ensures GetAll(corpus, listing).Success?
    ensures |GetAll(corpus, listing).value| == |corpus|
    ensures forall i :: 0 <= i < |listing| ==>
              && GetAll(corpus, listing).value[i].AsciiFilename() == listing[i]
              && Contents(GetAll(corpus, listing).value[i].svg) == corpus[listing[i]]
    ensures forall d :: d in GetAll(corpus, listing).value ==>
              Resolve(corpus, [d.character], VariantArgument(d.variant)) == Success(d)
  {
    EnumerationSize(listing, corpus);
    GetAllSucceeds(corpus, listing);
    var ds := GetAll(corpus, listing).value;
    forall i | 0 <= i < |listing|
      ensures ds[i].AsciiFilename() == listing[i]
      ensures Contents(ds[i].svg) == corpus[listing[i]]
      ensures Resolve(corpus, [ds[i].character], VariantArgument(ds[i].variant)) == Success(ds[i])
    {
      assert listing[i] in corpus;
      ResolveWellFormedEntry(corpus, listing[i]);
      ResolveByAsciiFilename(corpus, ds[i].character, ds[i].variant);
    }
  }

  lemma {:induction false} GetAllSucceeds(corpus: Corpus, listing: seq<string>)
    requires WellFormedCorpus(corpus)
    requires forall i :: 0 <= i < |listing| ==> listing[i] in corpus
    ensures GetAll(corpus, listing).Success?
  {
    if listing != [] {
      ResolveWellFormedEntry(corpus, listing[0]);
      GetAllSucceeds(corpus, listing[1..]);
    }
  }
}

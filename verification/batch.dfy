/**
 * The selection `write_all` makes: which output files a batch run writes.
 * For an explicit character list, each character is resolved on its own;
 * one that is invalid is skipped and the rest go on. Without a list,
 * every document `get_all` yields is written. Rendering the files is not
 * part of this model, only their names and order.
 */
module Batch {
  import opened Wrappers
  import Codec
  import opened Resolver
  import Sequences

  /** Resolution of one character with no variant, as the batch loop performs it. */
  type Lookup = char -> Result<KanjiVG, Error>

  function LookupIn(corpus: Corpus): Lookup {
    c => Resolve(corpus, [c], None)
  }

  /** The characters a lookup resolves. */
  function Resolves(lookup: Lookup): char -> bool {
    c => lookup(c).Success?
  }

  /** An outcome that aborts the batch: a read fault other than "not found". */
  predicate IsFault(r: Result<KanjiVG, Error>) {
    r.Failure? && r.error.IOError?
  }

  /** A character that resolves, and so gets an output file. */
  predicate Writable(corpus: Corpus, c: char) {
    Resolve(corpus, [c], None).Success?
  }

  /** A character whose document could not be read for a reason other than absence. */
  predicate Faults(corpus: Corpus, c: char) {
    IsFault(Resolve(corpus, [c], None))
  }

  /** A character is writable exactly when its document file has contents. */
  lemma WritableIffContents(corpus: Corpus, c: char)
    ensures Writable(corpus, c) <==> Read(corpus, Codec.AsciiFilename(c, "")).Contents?
    ensures Faults(corpus, c) <==> Read(corpus, Codec.AsciiFilename(c, "")).Fault?
  {
    ResolveSucceedsIff(corpus, [c], None);
  }

  /** The output filename of each character, in order. */
  function Names(chars: seq<char>): (r: seq<string>)
    ensures |r| == |chars|
    ensures forall i :: 0 <= i < |chars| ==> r[i] == Codec.CharacterFilename(chars[i], "")
  {
    seq(|chars|, i requires 0 <= i < |chars| => Codec.CharacterFilename(chars[i], ""))
  }

  lemma NamesConcat(a: seq<char>, b: seq<char>)
    ensures Names(a + b) == Names(a) + Names(b)
  {
    var l, r := Names(a + b), Names(a) + Names(b);
    assert |l| == |r|;
    forall i | 0 <= i < |l|
      ensures l[i] == r[i]
    {
      if i >= |a| {
        assert (a + b)[i] == b[i - |a|];
      }
    }
  }

  /** The output of a batch over `chars`: the names of the characters `lookup` resolves, in order. */
  function Written(lookup: Lookup, chars: seq<char>): (r: seq<string>)
    ensures |r| <= |chars|
  {
    Names(Sequences.Filter(Resolves(lookup), chars))
  }

  /**
   * Reference definition of the batch output over a corpus: the output
   * filename of each writable character, in input order.
   */
  function Selection(corpus: Corpus, chars: seq<char>): (r: seq<string>)
    ensures |r| <= |chars|
  {
    Written(LookupIn(corpus), chars)
  }

  /** The output for one more character extends the output so far. */
  lemma WrittenStep(lookup: Lookup, chars: seq<char>, i: nat)
    requires i < |chars|
    ensures Written(lookup, chars[..i + 1])
         == Written(lookup, chars[..i])
            + if lookup(chars[i]).Success? then [Codec.CharacterFilename(chars[i], "")] else []
  {
    var keep := Resolves(lookup);
    assert chars[..i + 1] == chars[..i] + [chars[i]];
    Sequences.FilterConcat(keep, chars[..i], [chars[i]]);
    Sequences.FilterSingle(keep, chars[i]);
    NamesConcat(Sequences.Filter(keep, chars[..i]), Sequences.Filter(keep, [chars[i]]));
  }

  /** Selection treats each character on its own: it distributes over concatenation. */
  lemma SelectionConcat(corpus: Corpus, a: seq<char>, b: seq<char>)
    ensures Selection(corpus, a + b) == Selection(corpus, a) + Selection(corpus, b)
  {
    var keep := Resolves(LookupIn(corpus));
    Sequences.FilterConcat(keep, a, b);
    NamesConcat(Sequences.Filter(keep, a), Sequences.Filter(keep, b));
  }

  /**
   * An invalid character anywhere in the list, before or after valid
   * ones, changes nothing about what the others produce.
   */
  lemma SkipsInvalid(corpus: Corpus, before: seq<char>, bad: char, after: seq<char>)
    requires !Writable(corpus, bad)
    ensures Selection(corpus, before + [bad] + after) == Selection(corpus, before + after)
  {
    SelectionConcat(corpus, before + [bad], after);
    SelectionConcat(corpus, before, [bad]);
    SelectionConcat(corpus, before, after);
    Sequences.FilterSingle(Resolves(LookupIn(corpus)), bad);
  }

  /**
   * The output names exactly the writable characters of the list: a file
   * is written for `c` if and only if `c` is in the list and resolves.
   */
  lemma SelectionMembers(corpus: Corpus, chars: seq<char>, c: char)
    ensures Codec.CharacterFilename(c, "") in Selection(corpus, chars) <==> c in chars && Writable(corpus, c)
  {
    var kept := Sequences.Filter(Resolves(LookupIn(corpus)), chars);
    Sequences.FilterMembers(Resolves(LookupIn(corpus)), chars, c);
    if Codec.CharacterFilename(c, "") in Names(kept) {
      var i :| 0 <= i < |kept| && Names(kept)[i] == Codec.CharacterFilename(c, "");
      Codec.CharacterFilenameInjective(c, "", kept[i], "");
    }
    if c in kept {
      var i :| 0 <= i < |kept| && kept[i] == c;
      assert Names(kept)[i] == Codec.CharacterFilename(c, "");
    }
  }

  /** When every character is writable, each gets its file, in input order. */
  lemma SelectionAllWritable(corpus: Corpus, chars: seq<char>)
    requires forall i :: 0 <= i < |chars| ==> Writable(corpus, chars[i])
    ensures Selection(corpus, chars) == Names(chars)
  {
    Sequences.FilterAll(Resolves(LookupIn(corpus)), chars);
  }

  /** A writable character on its own gets exactly its file. */
  lemma SelectionOfOne(corpus: Corpus, c: char)
    requires Writable(corpus, c)
    ensures Selection(corpus, [c]) == [Codec.CharacterFilename(c, "")]
  {
    var keep := Resolves(LookupIn(corpus));
    assert keep(c);
    Sequences.FilterSingle(keep, c);
    assert Names([c])[0] == Codec.CharacterFilename(c, "");
  }

  /** Two writable characters give their two files, in order. */
  lemma SelectionOfTwo(corpus: Corpus, a: char, b: char)
    requires Writable(corpus, a) && Writable(corpus, b)
    ensures Selection(corpus, [a, b]) == [Codec.CharacterFilename(a, ""), Codec.CharacterFilename(b, "")]
  {
    var na, nb := Codec.CharacterFilename(a, ""), Codec.CharacterFilename(b, "");
    SelectionConcat(corpus, [a], [b]);
    SelectionOfOne(corpus, a);
    SelectionOfOne(corpus, b);
    calc {
      Selection(corpus, [a, b]);
      { assert [a, b] == [a] + [b]; }
      Selection(corpus, [a] + [b]);
      Selection(corpus, [a]) + Selection(corpus, [b]);
      [na] + [nb];
      { assert [na] + [nb] == [na, nb]; }
      [na, nb];
    }
  }

  /** A valid character is written alone, whether an invalid one comes after it or before it. */
  lemma SelectionSkipsNeighbour(corpus: Corpus, good: char, bad: char)
    requires Writable(corpus, good) && !Writable(corpus, bad)
    ensures Selection(corpus, [good, bad]) == [Codec.CharacterFilename(good, "")]
    ensures Selection(corpus, [bad, good]) == [Codec.CharacterFilename(good, "")]
  {
    SkipsInvalid(corpus, [good], bad, []);
    SkipsInvalid(corpus, [], bad, [good]);
    assert [good] + [bad] + [] == [good, bad];
    assert [] + [bad] + [good] == [bad, good];
    assert [good] + [] == [good] && [] + [good] == [good];
    SelectionOfOne(corpus, good);
  }

  /**
   * `write_all`: the names of the files written, in order. With a list of
   * characters, a read fault other than "not found" aborts the run with
   * that fault; without one, the whole corpus is listed through `get_all`.
   */
  method WriteAll(corpus: Corpus, characters: Option<seq<char>>, listing: seq<string>)
    returns (r: Result<seq<string>, Error>)
    ensures characters.Some? && (forall i :: 0 <= i < |characters.value| ==> !Faults(corpus, characters.value[i])) ==>
              r == Success(Selection(corpus, characters.value))
    ensures characters.Some? && (exists i :: 0 <= i < |characters.value| && Faults(corpus, characters.value[i])) ==>
              r.Failure?
    ensures characters.Some? && r.Failure? ==>
              exists i :: 0 <= i < |characters.value|
                       && Resolve(corpus, [characters.value[i]], None) == Failure(r.error)
                       && r.error.IOError?
                       && forall j :: 0 <= j < i ==> !Faults(corpus, characters.value[j])
    ensures characters.None? ==> (r.Success? <==> GetAll(corpus, listing).Success?)
    ensures characters.None? && r.Success? ==>
              && |r.value| == |GetAll(corpus, listing).value|
              && forall i :: 0 <= i < |r.value| ==> r.value[i] == GetAll(corpus, listing).value[i].CharacterFilename()
    ensures characters.None? && r.Failure? ==> r == Failure(GetAll(corpus, listing).error)
  {
    if characters.None? {
      match GetAll(corpus, listing)
      case Failure(e) =>
        return Failure(e);
      case Success(docs) =>
        var names := OutputNames(docs);
        return Success(names);
    }
    r := WriteCharacters(LookupIn(corpus), characters.value);
  }

  /** The output filenames of `docs`, one each, in order. */
  method OutputNames(docs: seq<KanjiVG>) returns (names: seq<string>)
    ensures |names| == |docs|
    ensures forall k :: 0 <= k < |docs| ==> names[k] == docs[k].CharacterFilename()
  {
    names := [];
    for i := 0 to |docs|
      invariant |names| == i
      invariant forall k :: 0 <= k < i ==> names[k] == docs[k].CharacterFilename()
    {
      names := names + [docs[i].CharacterFilename()];
    }
  }

  /**
   * `write_all` over an explicit character list: each character is looked
   * up in turn; one that resolves gets its file, an invalid one is
   * skipped, and a read fault stops the run with that fault.
   */
  method WriteCharacters(lookup: Lookup, chars: seq<char>) returns (r: Result<seq<string>, Error>)
    ensures (forall i :: 0 <= i < |chars| ==> !IsFault(lookup(chars[i]))) ==> r == Success(Written(lookup, chars))
    ensures (exists i :: 0 <= i < |chars| && IsFault(lookup(chars[i]))) ==> r.Failure?
    ensures r.Failure? ==>
              exists i :: 0 <= i < |chars|
                       && lookup(chars[i]) == Failure(r.error)
                       && IsFault(lookup(chars[i]))
                       && forall j :: 0 <= j < i ==> !IsFault(lookup(chars[j]))
  {
    var written := [];
    for i := 0 to |chars|
      invariant written == Written(lookup, chars[..i])
      invariant forall j :: 0 <= j < i ==> !IsFault(lookup(chars[j]))
    {
      var res := lookup(chars[i]);
      if IsFault(res) {
        return Failure(res.error);
      }
      WrittenStep(lookup, chars, i);
      if res.Success? {
        written := written + [Codec.CharacterFilename(chars[i], "")];
      }
    }
    assert chars[..|chars|] == chars;
    return Success(written);
  }
}

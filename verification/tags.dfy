/**
  The tag list and tag resolution: parsing the output of `git tag`, finding
  the tags near a requested one, and resolving a requested tag to either
  "found" or "not found, with these suggestions".
 */
module Tags {
  import opened Results
  import opened Lines
  import opened Substring
  import opened Order

  /** `set.remove("")` raised KeyError: the listing had no empty segment. */
  datatype ParseError = NoEmptySegment

  /**
    The set of tags in the listing: its newline-separated segments, with the
    empty segment removed. Removing an element that is absent raises, so a
    listing without any empty segment is an error.
   */
  function ParseTags(listing: string): (r: Result<set<string>, ParseError>)
    ensures r.Ok? <==> "" in Split(listing)
    ensures r.Ok? ==> "" !in r.value
    ensures r.Ok? ==> forall t :: t in r.value ==> t in Split(listing)
    ensures r.Ok? ==> forall i :: 0 <= i < |Split(listing)| && Split(listing)[i] != "" ==> Split(listing)[i] in r.value
  {
    var segments := set s | s in Split(listing);
    if "" in segments then Ok(segments - {""}) else Err(NoEmptySegment)
  }

  /**
    Parsing succeeds exactly when the listing is empty, starts or ends with a
    newline, or holds a blank line; a single unterminated line fails.
   */
  lemma ParseTagsOkIff(listing: string)
    ensures ParseTags(listing).Ok? <==>
      |listing| == 0 || listing[0] == Newline || EndsWithNewline(listing) || HasBlankLine(listing)
  {
    EmptySegmentIff(listing);
  }

  /** No parsed tag contains a newline. */
  lemma ParsedTagsAreLines(listing: string)
    requires ParseTags(listing).Ok?
    ensures forall t :: t in ParseTags(listing).value ==> Newline !in t
  {
  }

  /** The listing `git tag` prints: every tag on a line of its own, each line newline-terminated. */
  function Listing(tags: seq<string>): (s: string)
  {
    Join(tags + [""])
  }

  /**
    Round trip: a listing of non-empty, newline-free tags parses back to
    exactly the set of those tags.
   */
  lemma ParseListing(tags: seq<string>)
    requires forall i :: 0 <= i < |tags| ==> tags[i] != "" && Newline !in tags[i]
    ensures ParseTags(Listing(tags)) == Ok(set t | t in tags)
  {
    var lines := tags + [""];
    assert forall i :: 0 <= i < |lines| ==> Newline !in lines[i] by {
      forall i | 0 <= i < |lines| ensures Newline !in lines[i] {
        if i < |tags| {
          assert lines[i] == tags[i];
        }
      }
    }
    SplitJoin(lines);
    assert lines[|tags|] == "";
    assert "" in Split(Listing(tags));
    var parsed := ParseTags(Listing(tags)).value;
    forall t ensures t in parsed <==> t in tags {
      if t in tags {
        var k :| 0 <= k < |tags| && tags[k] == t;
        assert lines[k] == t;
      }
      if t in parsed {
        var k :| 0 <= k < |lines| && lines[k] == t;
        assert k < |tags|;
        assert tags[k] == t;
      }
    }
    assert parsed == (set t | t in tags);
  }

  /**
    `find_near_tags`: the known tags that contain the requested tag as a
    substring.
   */
  function NearTags(tag: string, tags: set<string>): (r: set<string>)
    ensures r <= tags
    ensures forall t :: t in r <==> t in tags && ContainsRec(t, tag)
  {
    assert forall t :: Contains(t, tag) <==> ContainsRec(t, tag) by {
      forall t ensures Contains(t, tag) <==> ContainsRec(t, tag) {
        ContainsAgrees(t, tag);
      }
    }
    set t | t in tags && Contains(t, tag)
  }

  /** The empty request is near every tag. */
  lemma EmptyRequestNearAll(tags: set<string>)
    ensures NearTags("", tags) == tags
  {
    forall t | t in tags ensures t in NearTags("", tags) {
      ContainsSelfAndEmpty(t);
    }
  }

  /** A requested tag is either found, or not found with the suggestions shown to the user. */
  datatype Resolution = Found | NotFound(suggestions: seq<string>)

  /**
    The membership check of `build` followed, on a miss, by
    `tag_not_found_handler`: the near tags, sorted ascending.
   */
  function Resolve(tag: string, tags: set<string>): (r: Resolution)
    ensures r.Found? <==> tag in tags
    ensures r.NotFound? ==> StrictlySorted(r.suggestions)
    ensures r.NotFound? ==> forall t :: t in r.suggestions <==> t in tags && Contains(t, tag)
  {
    if tag in tags then Found else NotFound(SortSet(NearTags(tag, tags)))
  }

  /**
    On a miss the suggestions are the one strictly sorted, duplicate-free
    listing of the near tags: any other such listing equals it.
   */
  lemma SuggestionsAreSortedNearTags(tag: string, tags: set<string>, listing: seq<string>)
    requires tag !in tags
    requires StrictlySorted(listing)
    requires forall t :: t in listing <==> t in NearTags(tag, tags)
    ensures Resolve(tag, tags) == NotFound(listing)
    ensures forall i, j :: 0 <= i < j < |listing| ==> listing[i] != listing[j]
  {
    SortedUnique(Resolve(tag, tags).suggestions, listing);
    SortedDistinct(listing);
  }

  /**
    A request that is a prefix of two tags but not itself a tag: it is not
    found, and exactly the two tags it occurs in are suggested, in order.
   */
  lemma ExampleMiss()
    ensures Resolve("v3.11", {"v3.11.0", "v3.11.1", "v3.12.0"}) == NotFound(["v3.11.0", "v3.11.1"])
  {
    var tags := {"v3.11.0", "v3.11.1", "v3.12.0"};
    var expected := ["v3.11.0", "v3.11.1"];
    ExampleNearTags();
    ExampleSorted();
    assert forall t :: t in expected <==> t in {"v3.11.0", "v3.11.1"};
    SuggestionsAreSortedNearTags("v3.11", tags, expected);
  }

  /** The two suggestions differ first at their last character, `0` before `1`. */
  lemma ExampleSorted()
    ensures StrictlySorted(["v3.11.0", "v3.11.1"])
  {
  }

  /** `v3.11` occurs in `v3.11.0` and `v3.11.1` but not in `v3.12.0`. */
  lemma ExampleNearTags()
    ensures NearTags("v3.11", {"v3.11.0", "v3.11.1", "v3.12.0"}) == {"v3.11.0", "v3.11.1"}
  {
    assert ContainsRec("v3.11.0", "v3.11");
    assert ContainsRec("v3.11.1", "v3.11");
    var hay := "v3.12.0";
    assert hay[4] != "v3.11"[4];
    assert 'v' !in hay[1..];
    FirstCharAbsent(hay[1..], "v3.11");
    assert !ContainsRec(hay, "v3.11");
  }
}

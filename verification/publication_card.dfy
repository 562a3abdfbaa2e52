/** The two pure helpers of the result card (`PublicationCard`): the
    cleaned-up author line and the colour of the relevance score. */
module PublicationCard {
  import opened JsStrings

  /** Shown when no usable author text remains. */
  const UnknownAuthors: string := "Unknown Authors"

  /** The author line: the stored authors with the first copy of the title
      cut out and the remainder trimmed when the title occurs in it, the
      placeholder when nothing but whitespace would be left. */
  function FormatAuthors(authors: string, title: string): (r: string)
    ensures authors == [] ==> r == UnknownAuthors
    ensures r != [] && !IsBlank(r)
    ensures Includes(authors, title) && !IsBlank(RemoveFirst(authors, title)) ==>
              r == Trim(RemoveFirst(authors, title))
    ensures Includes(authors, title) && IsBlank(RemoveFirst(authors, title)) ==> r == UnknownAuthors
    ensures !Includes(authors, title) && !IsBlank(authors) ==> r == authors
    ensures !Includes(authors, title) && IsBlank(authors) ==> r == UnknownAuthors
  {
    assert !IsWhitespace(UnknownAuthors[0]);
    if authors == [] then
      UnknownAuthors
    else
      var cleaned := if Includes(authors, title) then Trim(RemoveFirst(authors, title)) else authors;
      if cleaned == [] || Trim(cleaned) == [] then UnknownAuthors else cleaned
  }

  /** When the title is present, the author line is what surrounds its first
      occurrence, trimmed: the text before it followed by the text after it. */
  lemma AuthorsAroundTitle(authors: string, title: string)
    requires Includes(authors, title)
    ensures var i := IndexOf(authors, title).value;
            var rest := authors[..i] + authors[i + |title|..];
            FormatAuthors(authors, title) == if IsBlank(rest) then UnknownAuthors else Trim(rest)
  {
    var i := IndexOf(authors, title).value;
    var r := RemoveFirst(authors, title);
    assert r == r[..i] + r[i..];
  }

  /** An empty title occurs at the start of every author line, so a
      non-blank line is shown trimmed rather than as stored. */
  lemma EmptyTitleTrims(authors: string)
    requires !IsBlank(authors)
    ensures FormatAuthors(authors, "") == Trim(authors)
  {
    assert OccursAt(authors, "", 0);
    assert RemoveFirst(authors, "") == authors;
  }

  /** The three colour bands of a relevance score. */
  datatype Relevance = Low | Medium | High

  /** The band of a score: high from 8, medium from 6, low below. */
  function RelevanceBand(score: real): (band: Relevance)
    ensures band == High <==> score >= 8.0
    ensures band == Medium <==> 6.0 <= score < 8.0
    ensures band == Low <==> score < 6.0
  {
    if score >= 8.0 then High else if score >= 6.0 then Medium else Low
  }

  /** The CSS colour drawn for each band: green, yellow, red. */
  function Color(band: Relevance): string
  {
    match band
    case High => "#34a853"
    case Medium => "#fbbc04"
    case Low => "#ea4335"
  }

  /** `getRelevanceColor`. */
  function RelevanceColor(score: real): (color: string)
    ensures score >= 8.0 ==> color == "#34a853"
    ensures 6.0 <= score < 8.0 ==> color == "#fbbc04"
    ensures score < 6.0 ==> color == "#ea4335"
  {
    Color(RelevanceBand(score))
  }

  function Rank(band: Relevance): nat
  {
    match band
    case Low => 0
    case Medium => 1
    case High => 2
  }

  /** A higher score never falls into a lower band. */
  lemma BandMonotone(a: real, b: real)
    requires a <= b
    ensures Rank(RelevanceBand(a)) <= Rank(RelevanceBand(b))
  {
  }
}

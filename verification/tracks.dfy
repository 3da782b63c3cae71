/** The track record `addTrackToBoard` stores (main.js:284-308).

    The board and the selected birth year come in as parameters; the write
    to the external store, its generated key and its server timestamp are
    not part of this model.
 */
module Tracks {
  import opened Options
  import opened Era

  /** A catalogue search result; any of its fields may be missing. */
  datatype SearchItem = SearchItem(
    trackName: Option<string>,
    artistName: Option<string>,
    collectionName: Option<string>,
    artworkUrl100: Option<string>,
    previewUrl: Option<string>,
    releaseDate: Option<string>)

  /** A track of the playlist as the store delivers it. A record written by
      this client always has a birth year; one written otherwise may lack it. */
  datatype Track = Track(
    trackName: string,
    artistName: string,
    collectionName: string,
    artworkUrl100: string,
    previewUrl: string,
    releaseDate: string,
    birthYear: Option<int>,
    era17: string)

  /** Why a track is not added: no board joined, or no birth year chosen. */
  datatype AddError = NoBoard | NoBirthYear

  /** `field || ""`: a missing text field becomes the empty string. */
  function TextOf(field: Option<string>): string {
    field.GetOr("")
  }

  /** The record `addTrackToBoard` builds (main.js:285-308). `boardId` is the
      joined board (`None` before any); `selected` is the chosen birth year,
      `None` while the placeholder is selected. The choices' values are
      printed years, which `parseInt` reads back exactly (`Decimal.ParseShow`). */
  function NewTrack(boardId: Option<string>, selected: Option<int>, item: SearchItem): (r: Result<Track, AddError>)
    // The board is checked first, then the birth year.
    ensures (boardId.None? || boardId.value == "") ==> r == Err(NoBoard)
    ensures boardId.Some? && boardId.value != "" && selected.None? ==> r == Err(NoBirthYear)
    ensures r.Ok? <==> boardId.Some? && boardId.value != "" && selected.Some?
    // The record carries the chosen year and the label of the era it turns 17 in.
    ensures r.Ok? ==> r.value.birthYear == selected
    ensures r.Ok? ==> ParseEraLabel(r.value.era17) == Some(EraDateOf(selected.value))
    // Missing catalogue fields are stored as empty text, present ones as given.
    ensures r.Ok? ==> r.value.trackName == item.trackName.GetOr("")
    ensures r.Ok? ==> r.value.artistName == item.artistName.GetOr("")
    ensures r.Ok? ==> r.value.collectionName == item.collectionName.GetOr("")
    ensures r.Ok? ==> r.value.artworkUrl100 == item.artworkUrl100.GetOr("")
    ensures r.Ok? ==> r.value.previewUrl == item.previewUrl.GetOr("")
    ensures r.Ok? ==> r.value.releaseDate == item.releaseDate.GetOr("")
  {
    if boardId.None? || boardId.value == "" then Err(NoBoard)
    else if selected.None? then Err(NoBirthYear)
    else
      var birthYear := selected.value;
      Ok(Track(
        TextOf(item.trackName),
        TextOf(item.artistName),
        TextOf(item.collectionName),
        TextOf(item.artworkUrl100),
        TextOf(item.previewUrl),
        TextOf(item.releaseDate),
        Some(birthYear),
        CalculateEra(birthYear)))
  }
}

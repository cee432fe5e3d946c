/** What the player shows, derived from its state: the current track's title,
    artist and source with their fallbacks, and per playlist row whether it is
    highlighted and whether it carries the "playing" pulse. */
module View {
  import opened Options
  import opened Tracks

  const DefaultTitle: string := "Audio Title"

  /** `tracks[currentTrackIndex]`: undefined when the index names no track. */
  function CurrentTrack(tracks: seq<Track>, i: nat): (r: Option<Track>)
    ensures r.Some? <==> i < |tracks|
    ensures r.Some? ==> r.value == tracks[i]
  {
    if i < |tracks| then Some(tracks[i]) else None
  }

  /** `tracks[currentTrackIndex]?.src || ""`: the source given to the audio
      element, which is the current track's, or empty when there is none. */
  function BoundSource(tracks: seq<Track>, i: nat): (r: string)
    ensures i < |tracks| ==> r == tracks[i].src
    ensures i >= |tracks| ==> r == ""
  {
    match CurrentTrack(tracks, i)
    case Some(t) => t.src
    case None => ""
  }

  /** Appending tracks leaves the source bound for an index that already named
      a track unchanged, so the effect re-run that an upload causes binds the
      same source again. */
  lemma BoundSourceAfterUpload(tracks: seq<Track>, more: seq<Track>, i: nat)
    requires i < |tracks|
    ensures BoundSource(tracks + more, i) == BoundSource(tracks, i)
    ensures BoundSource(tracks + more, i) == tracks[i].src
  {
  }

  /** `tracks[currentTrackIndex]?.title || "Audio Title"`. The heading is never
      blank: it is the current track's title when that exists and is
      non-empty, and "Audio Title" otherwise. */
  function DisplayTitle(tracks: seq<Track>, i: nat): (r: string)
    ensures r != ""
    ensures i < |tracks| && tracks[i].title != "" ==> r == tracks[i].title
    ensures !(i < |tracks| && tracks[i].title != "") ==> r == DefaultTitle
  {
    match CurrentTrack(tracks, i)
    case Some(t) => if t.title != "" then t.title else DefaultTitle
    case None => DefaultTitle
  }

  /** `tracks[currentTrackIndex]?.artist || "Unknown Artist"`. The artist line
      is never blank either. */
  function DisplayArtist(tracks: seq<Track>, i: nat): (r: string)
    ensures r != ""
    ensures i < |tracks| && tracks[i].artist != "" ==> r == tracks[i].artist
    ensures !(i < |tracks| && tracks[i].artist != "") ==> r == UnknownArtist
  {
    match CurrentTrack(tracks, i)
    case Some(t) => if t.artist != "" then t.artist else UnknownArtist
    case None => UnknownArtist
  }

  /** A playlist row gets the highlighted background: the row the index
      names, and so at most one row for any index. */
  predicate RowHighlighted(row: nat, current: nat) {
    row == current
  }

  /** A playlist row shows the green pulse: only a highlighted row, and only
      while playing. */
  predicate RowPulses(row: nat, current: nat, playing: bool) {
    RowHighlighted(row, current) && playing
  }

  /** The rows that carry the highlight. They are drawn only while the
      playlist is shown; this set does not depend on `showPlaylist`. */
  function HighlightedRows(tracks: seq<Track>, current: nat): set<nat> {
    set row: nat | row < |tracks| && RowHighlighted(row, current)
  }

  /** The rows that carry the pulse. They too are drawn only while the
      playlist is shown. */
  function PulsingRows(tracks: seq<Track>, current: nat, playing: bool): set<nat> {
    set row: nat | row < |tracks| && RowPulses(row, current, playing)
  }

  /** Exactly the current row is highlighted, and none when the index names no track. */
  lemma HighlightedRowsExactly(tracks: seq<Track>, current: nat)
    ensures HighlightedRows(tracks, current) == if current < |tracks| then {current} else {}
  {
  }

  /** The pulse is on the highlighted row while playing, and on no row when paused. */
  lemma PulsingRowsExactly(tracks: seq<Track>, current: nat, playing: bool)
    ensures PulsingRows(tracks, current, playing) == if playing && current < |tracks| then {current} else {}
    ensures PulsingRows(tracks, current, playing) <= HighlightedRows(tracks, current)
  {
    HighlightedRowsExactly(tracks, current);
  }
}

# Audio player controller, modelled in Dafny

This project models the state logic of the `AudioPlayer` React component
(`src/components/audio-player.tsx`). The component is a browser widget.
It imports audio files into a playlist and plays them through an `<audio>`
element. The user can skip between tracks, pause and resume, and show or
hide the playlist. Under the JSX there is a small controller, and that is
what is modelled here:

- **Tracks** (`tracks.dfy`). A `Track` holds a title, an artist and a source
  URL. The upload handler turns each uploaded file into one `Track`:
  - The title is the metadata title. When that is absent or empty, it is the
    file name with the match of `/\.[^/.]+$/` removed.
  - The artist is the metadata artist, or `"Unknown Artist"`.
  - The new tracks are appended after the existing ones, in file order.
- **TimeFormat** (`time_format.dfy`). `formatTime` renders a number of
  seconds as `m:ss`. A reader for that rendering is its partner, and the two
  are proved to round-trip.
- **Transport** (`transport.dfy`). This is the index arithmetic of the
  skip-forward and skip-back buttons. It comes in two versions: the
  handlers as written, over JavaScript numbers, and a guarded version that
  the player uses (see Findings).
- **View** (`view.dfy`). These are the values derived for display: the
  current title and artist with their fallbacks, the source given to the
  audio element, and the highlighted and pulsing playlist rows.
- **Player** (`player.dfy`). The class `AudioPlayer` holds the component's
  state slots as fields: `tracks`, `currentTrackIndex`, `isPlaying`,
  `showPlaylist`, and the `src` bound to the audio element. Its methods are
  the event handlers and the source-binding part of the effect. Its
  invariant `Valid()` says that the index is a row of the playlist, or 0
  while the playlist is empty.

The audio element, the metadata reader and `URL.createObjectURL` are treated
as inputs:
- whether the element is mounted is a boolean parameter;
- whether a `play()` request succeeds is a boolean parameter;
- each file's metadata is given as `Tags(title?, artist?)` or `ReadFailed`;
- the object URL of a file is an opaque string.

Behaviour of the code that the model keeps as it is:
- A file whose metadata cannot be read is not caught: `await parseBlob(file)`
  at line 36 has no `try`. The rejection ends the upload handler before
  `setTracks` runs, so one unreadable file drops the whole batch.
  `Tracks.ImportFiles` and `Player.AudioPlayer.HandleUpload` model this.
- The fallback title can be empty. A file named `.mp3` with no title tag gets
  the title `""` (`Tracks.StripExtensionExamples`). The heading then shows
  `"Audio Title"` (`View.DisplayTitle`), but the playlist row is blank.

One place where the class does not follow the code: the skip handlers at
lines 69-77 have no empty-playlist guard. `Transport.JsNextIndex` and
`Transport.JsPrevIndex` model them as written. The class
`Player.AudioPlayer` uses the guarded `Transport.NextIndex` and
`Transport.PrevIndex` instead, which leave the index alone on an empty
playlist. The two agree on every valid index of a non-empty playlist. The
difference is recorded under Findings.

## Model

| member | source | states |
|---|---|---|
| Tracks.ScanExtension | src/components/audio-player.tsx:37 | the backward scan finds a match of `/\.[^/.]+$/` when there is one, and reports that there is none exactly when no position matches |
| Tracks.StripExtension | src/components/audio-player.tsx:37 | the fallback title is always a prefix of the file name |
| Tracks.ExtensionUnique | src/components/audio-player.tsx:37 | the expression can match the name in at most one place |
| Tracks.StripExtensionAtMatch | src/components/audio-player.tsx:37 | where the expression matches at `p`, the fallback title is `name[..p]`, strictly shorter than the name |
| Tracks.StripExtensionNoMatch | src/components/audio-player.tsx:37 | where it matches nowhere, the file name is kept whole |
| Tracks.StripExtensionExamples | src/components/audio-player.tsx:37 | `a.mp3` gives `a`, `x.tar.gz` gives `x.tar`, `notes` and `take.` are unchanged, `.mp3` gives the empty title |
| Tracks.TrackTitle | src/components/audio-player.tsx:37 | a present, non-empty title tag is kept; otherwise the title is the file name without its extension, a prefix of the name |
| Tracks.TrackArtist | src/components/audio-player.tsx:38 | a present, non-empty artist tag is kept; otherwise "Unknown Artist"; never empty |
| Tracks.MakeTrack | src/components/audio-player.tsx:37-45 | a track's source is the file's object URL; its artist is the artist tag when that is non-empty and "Unknown Artist" otherwise; its title is the title tag when that is non-empty and the file name without its extension otherwise |
| Tracks.UntaggedFileFallback | src/components/audio-player.tsx:36-45 | a file read with absent or empty tags becomes `Track(name without extension, "Unknown Artist", url)`: cut at the match where the expression matches, the whole name where it does not |
| Tracks.ImportedAt | src/components/audio-player.tsx:34-49 | an upload yields one track per file, the k-th built from the k-th file |
| Tracks.ImportedAppend | src/components/audio-player.tsx:50 | two uploads in a row append the same tracks as one upload of both batches |
| Tracks.ImportFiles | src/components/audio-player.tsx:34-49 | the loop yields the tracks of all files in order exactly when every file's metadata was read, and nothing when one read fails |
| TimeFormat.Decimal | src/components/audio-player.tsx:111 | an integer is written as at least one digit, with no leading zero, and with one digit exactly below ten |
| TimeFormat.DecimalRoundTrip | src/components/audio-player.tsx:111 | the written numeral denotes the number |
| TimeFormat.PadSeconds | src/components/audio-player.tsx:110-111 | the seconds field has two digits, denotes the seconds, and starts with `0` exactly when the seconds are below ten |
| TimeFormat.ParseTimeFields | src/components/audio-player.tsx:111 | minutes, `:` and a two-digit seconds field read back as minutes * 60 + seconds |
| TimeFormat.FormatTime | src/components/audio-player.tsx:108-112 | `formatTime` ends in `:` and two seconds digits after the minutes numeral, the first of them `0` exactly when the seconds are below ten |
| TimeFormat.FormatTimeRoundTrip | src/components/audio-player.tsx:108-112 | reading `formatTime(t)` back gives `t`: the rendering loses nothing |
| TimeFormat.FormatTimeInjective | src/components/audio-player.tsx:108-112 | different durations render differently |
| TimeFormat.FormatTimeShape | src/components/audio-player.tsx:108-112 | the rendering is `t / 60`, `:`, and `t % 60` padded to two digits, with a leading `0` exactly when `t % 60 < 10` |
| TimeFormat.FormatTimeExamples | src/components/audio-player.tsx:108-112 | 65 renders as `1:05`, 5 as `0:05` and 600 as `10:00` |
| Transport.NextIndex | src/components/audio-player.tsx:69-71 | skip-forward keeps a valid index valid and lands on a row of any non-empty playlist |
| Transport.PrevIndex | src/components/audio-player.tsx:73-77 | skip-back keeps a valid index valid |
| Transport.ValidIndexGrows | src/components/audio-player.tsx:50 | appending tracks never invalidates the index |
| Transport.PrevAfterNext | src/components/audio-player.tsx:69-77 | skip-back undoes skip-forward |
| Transport.NextAfterPrev | src/components/audio-player.tsx:69-77 | skip-forward undoes skip-back |
| Transport.NextPressesModular | src/components/audio-player.tsx:69-71 | `k` presses of next from row `i` land on `(i + k) mod n` |
| Transport.PrevPressesModular | src/components/audio-player.tsx:73-77 | `k` presses of previous from row `i` land on `(i - k) mod n` |
| Transport.FullCircle | src/components/audio-player.tsx:69-71 | `n` presses of next return to the starting row |
| Transport.JsRem | src/components/audio-player.tsx:70 | JavaScript's `%` by a track count is NaN exactly on the empty playlist; otherwise it is a number above minus the count and below the count, non-negative for a non-negative dividend, non-positive for a non-positive one, and it differs from the dividend by a multiple of the count |
| Transport.JsNextIndex | src/components/audio-player.tsx:70 | as written, next gives NaN on an empty playlist or from NaN, and keeps an index that names a track on one that does |
| Transport.JsPrevIndex | src/components/audio-player.tsx:75 | as written, previous keeps NaN, keeps an index that names a track on one that does, and on an empty playlist gives an index that names no track |
| Transport.JsAgreesOnValidIndex | src/components/audio-player.tsx:69-77 | on a valid index of a non-empty playlist, the handlers as written and the guarded arithmetic give the same row |
| Transport.JsNaNSticks | src/components/audio-player.tsx:69-77 | as written, once the index is NaN, no series of next and previous presses gives a number again |
| Transport.EmptyNextStrandsIndex | src/components/audio-player.tsx:70 | as written, next on an empty playlist makes the index NaN, and after any later uploads and presses it names no track |
| Transport.EmptyPrevGoesNegative | src/components/audio-player.tsx:75 | as written, previous on an empty playlist makes the index -1, which names no track |
| Transport.TwoPrevsThenNext | src/components/audio-player.tsx:69-77 | as written, two presses of previous on an empty playlist give -2, and next after an upload of two or more tracks gives -1, which still names no track |
| Transport.NavigateKeepsValid | src/components/audio-player.tsx:69-77 | with the guard, any series of presses on a playlist that only grows leaves the index valid |
| View.BoundSourceAfterUpload | src/components/audio-player.tsx:116-138 | appending tracks keeps the source of an index that already named a track, so the effect re-run an upload triggers binds the same source again |
| View.DisplayTitle | src/components/audio-player.tsx:172 | the heading is never empty: the current title when it exists and is non-empty, `"Audio Title"` otherwise |
| View.DisplayArtist | src/components/audio-player.tsx:175 | the artist line is never empty: the current artist when it exists and is non-empty, `"Unknown Artist"` otherwise |
| View.HighlightedRowsExactly | src/components/audio-player.tsx:242-247 | exactly the current row is highlighted, and no row when the index names no track (rows are drawn only while the playlist is shown, line 240) |
| View.PulsingRowsExactly | src/components/audio-player.tsx:254 | the pulse shows on the current row while playing and on no row while paused; only highlighted rows pulse |
| Player.AudioPlayer.constructor | src/components/audio-player.tsx:20-28 | the player starts with no tracks, index 0, paused, the playlist hidden and an empty source |
| Player.AudioPlayer.HandleUpload | src/components/audio-player.tsx:31-52 | existing tracks are kept; when every file is read, one track per file is appended in order; otherwise the list is unchanged; the index and flags are untouched |
| Player.AudioPlayer.HandlePlayPause | src/components/audio-player.tsx:54-67 | while playing it pauses and clears `isPlaying`; while paused it requests play and sets `isPlaying` only on success; without an audio element nothing changes |
| Player.AudioPlayer.HandleNextTrack | src/components/audio-player.tsx:69-71 | only the index changes, to the next row, and it stays valid |
| Player.AudioPlayer.HandlePrevTrack | src/components/audio-player.tsx:73-77 | only the index changes, to the previous row, and it stays valid |
| Player.AudioPlayer.SelectTrack | src/components/audio-player.tsx:248 | a row click sets the index to that row and changes nothing else |
| Player.AudioPlayer.TogglePlaylist | src/components/audio-player.tsx:235 | the playlist visibility flips and nothing else changes |
| Player.AudioPlayer.Reconcile | src/components/audio-player.tsx:114-122 | the effect binds the current track's source, or `""`, and requests play exactly when the element is mounted and `isPlaying` |
| Player.SkipAndRebind | src/components/audio-player.tsx:114-122 | after a skip and the effect, the new track's source is bound and play is requested again exactly when the player was playing |

## Findings

| source | as written | input that shows it | evidently intended | confidence | as-written member | corrected member |
|---|---|---|---|---|---|---|
| src/components/audio-player.tsx:70 | `(prevIndex + 1) % tracks.length` with no check for an empty playlist | press next before any upload: `(0 + 1) % 0` is NaN. NaN survives every later next and previous, so after an upload the player shows "Audio Title" and binds `""` until a playlist row is clicked | next does nothing on an empty playlist | high (not executed) | Transport.EmptyNextStrandsIndex | Transport.NextIndex |
| src/components/audio-player.tsx:75 | `prevIndex === 0 ? tracks.length - 1 : prevIndex - 1` with no check for an empty playlist | press previous before any upload: the index becomes -1, which names no track after an upload, until next or a row click | previous does nothing on an empty playlist | high (not executed) | Transport.EmptyPrevGoesNegative | Transport.PrevIndex |

## Left out

- Progress, seek and volume (`handleTimeUpdate`, `handleLoadedMetadata`, `handleProgressChange`, `handleVolumeChange`, lines 79-106) and the `volume === 0` icon test. These are floating-point computations over a duration that can be NaN or 0.
- Cover art (`setImage`, lines 39-40, 46-48 and 123-136). It involves the extra `fetch` and `parseBlob` in the effect and an unsynchronised last-writer-wins race between promises.
- The audio element's `load()`, `pause()` and the playback position. Only the bound `src` and which requests are made are modelled.
- Player.AudioPlayer.HandlePlayPause: the `play()` promise is taken to settle at once, with its outcome given as `playSucceeds`. A later settlement that crosses other events is not modelled.
- Player.AudioPlayer.Reconcile: a failed `play()` from the effect only logs, so `isPlaying` stays true. The model shows this (`isPlaying` is unchanged), but it does not model when React runs the effect. The dependency list at line 138 includes `tracks` and `isPlaying`. So the effect also runs after every upload, and after a pause or resume, and calls `load()` on the same source again; after an upload this restarts a track that is playing. What `load()` does to the playback position is not modelled. On a one-track playlist next and previous store the same index, React skips the update and the effect does not run, so no `load()` or `play()` is made; Player.SkipAndRebind, which always runs the effect after a skip, does not capture that skip.
- Player.AudioPlayer.HandleUpload: modelled as one atomic step. The handler awaits once per file (line 36), so other events can run between the awaits, and two overlapping uploads append their batches in the order they finish. That interleaving is not modelled.
- Tracks.ImportFiles: a failed metadata read ends the loop. The object URLs and the cover image already produced for earlier files of that batch are not modelled.
- Object URLs are never revoked in the component. URL lifetime is not modelled.
- `formatTime` is modelled on whole seconds (`nat`). The floor of fractional seconds and the `NaN:NaN` rendering of an unknown duration are floating-point behaviour.
- JSX layout, styling, icons, `next/image`, and React's batching and re-render scheduling.

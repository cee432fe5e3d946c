/** The audio player's state slots and the event handlers that update them.

    The audio element itself is outside the model except for its `src`: whether
    the element is mounted (`audioRef.current` is set) and whether a play
    request succeeds are parameters of the handlers that touch it. */
module Player {
  import opened Options
  import opened Tracks
  import opened Transport
  import opened View

  /** The request a handler makes of the audio element. */
  datatype Command = NoCommand | PauseCommand | PlayCommand

  class AudioPlayer {
    var tracks: seq<Track>
    var currentTrackIndex: nat
    var isPlaying: bool
    var showPlaylist: bool
    /** The `src` the audio element is bound to. */
    var boundSrc: string

    ghost predicate Valid()
      reads this
    {
      ValidIndex(currentTrackIndex, |tracks|)
    }

    /** The initial values of the state slots. */
    constructor ()
      ensures Valid()
      ensures tracks == [] && currentTrackIndex == 0
      ensures !isPlaying && !showPlaylist && boundSrc == ""
    {
      tracks := [];
      currentTrackIndex := 0;
      isPlaying := false;
      showPlaylist := false;
      boundSrc := "";
    }

    /** The upload handler: when a file list is given and every file's
        metadata is read, one track per file is appended after the existing
        tracks, in file order; otherwise the track list is left as it was. */
    method HandleUpload(files: Option<seq<FileEntry>>)
      requires Valid()
      modifies this`tracks
      ensures Valid()
      ensures |old(tracks)| <= |tracks| && tracks[..|old(tracks)|] == old(tracks)
      ensures files.Some? && AllRead(files.value) ==>
                tracks == old(tracks) + Imported(files.value) &&
                |tracks| == |old(tracks)| + |files.value| &&
                forall k :: 0 <= k < |files.value| ==> tracks[|old(tracks)| + k] == MakeTrack(files.value[k])
      ensures !(files.Some? && AllRead(files.value)) ==> tracks == old(tracks)
      ensures currentTrackIndex == old(currentTrackIndex)
      ensures isPlaying == old(isPlaying) && showPlaylist == old(showPlaylist)
    {
      if files.Some? {
        var newTracks := ImportFiles(files.value);
        if newTracks.Some? {
          tracks := tracks + newTracks.value;
        }
      }
    }

    /** The play/pause button: pauses when playing; otherwise asks to play and
        records playing only if that request succeeds. Without a mounted audio
        element nothing happens. */
    method HandlePlayPause(audioMounted: bool, playSucceeds: bool) returns (cmd: Command)
      modifies this`isPlaying
      ensures cmd == (if !audioMounted then NoCommand
                      else if old(isPlaying) then PauseCommand
                      else PlayCommand)
      ensures cmd == NoCommand ==> isPlaying == old(isPlaying)
      ensures cmd == PauseCommand ==> !isPlaying
      ensures cmd == PlayCommand ==> isPlaying == playSucceeds
      ensures tracks == old(tracks) && currentTrackIndex == old(currentTrackIndex)
    {
      cmd := NoCommand;
      if audioMounted {
        if isPlaying {
          cmd := PauseCommand;
          isPlaying := false;
        } else {
          cmd := PlayCommand;
          if playSucceeds {
            isPlaying := true;
          }
        }
      }
    }

    /** The skip-forward button. */
    method HandleNextTrack()
      requires Valid()
      modifies this`currentTrackIndex
      ensures Valid()
      ensures currentTrackIndex == NextIndex(old(currentTrackIndex), |tracks|)
      ensures tracks == old(tracks) && isPlaying == old(isPlaying)
      ensures showPlaylist == old(showPlaylist) && boundSrc == old(boundSrc)
    {
      currentTrackIndex := NextIndex(currentTrackIndex, |tracks|);
    }

    /** The skip-back button. */
    method HandlePrevTrack()
      requires Valid()
      modifies this`currentTrackIndex
      ensures Valid()
      ensures currentTrackIndex == PrevIndex(old(currentTrackIndex), |tracks|)
      ensures tracks == old(tracks) && isPlaying == old(isPlaying)
      ensures showPlaylist == old(showPlaylist) && boundSrc == old(boundSrc)
    {
      currentTrackIndex := PrevIndex(currentTrackIndex, |tracks|);
    }

    /** A click on a playlist row; rows exist only for the tracks. */
    method SelectTrack(row: nat)
      requires Valid() && row < |tracks|
      modifies this`currentTrackIndex
      ensures Valid()
      ensures currentTrackIndex == row
      ensures tracks == old(tracks) && isPlaying == old(isPlaying)
      ensures showPlaylist == old(showPlaylist) && boundSrc == old(boundSrc)
    {
      currentTrackIndex := row;
    }

    /** The "Show/Hide Playlist" button. */
    method TogglePlaylist()
      modifies this`showPlaylist
      ensures showPlaylist == !old(showPlaylist)
      ensures tracks == old(tracks) && currentTrackIndex == old(currentTrackIndex)
      ensures isPlaying == old(isPlaying)
    {
      showPlaylist := !showPlaylist;
    }

    /** The effect that runs after the index, the track list or the playing
        flag changed: it binds the current track's source (or "" when the index
        names no track) and asks to play again when the player is playing. */
    method Reconcile(audioMounted: bool) returns (playRequested: bool)
      modifies this`boundSrc
      ensures boundSrc == (if audioMounted then BoundSource(tracks, currentTrackIndex) else old(boundSrc))
      ensures playRequested == (audioMounted && isPlaying)
      ensures tracks == old(tracks) && currentTrackIndex == old(currentTrackIndex)
      ensures isPlaying == old(isPlaying) && showPlaylist == old(showPlaylist)
    {
      playRequested := false;
      if audioMounted {
        boundSrc := BoundSource(tracks, currentTrackIndex);
        if isPlaying {
          playRequested := true;
        }
      }
    }
  }

  /** A skip followed by the effect it triggers: the new track's source is
      bound, and play is requested again exactly when the player was playing,
      so a track change keeps the play/pause intent. */
  method SkipAndRebind(p: AudioPlayer, forward: bool) returns (playRequested: bool)
    requires p.Valid() && |p.tracks| > 0
    modifies p
    ensures p.Valid()
    ensures p.currentTrackIndex == (if forward then NextIndex(old(p.currentTrackIndex), |p.tracks|)
                                    else PrevIndex(old(p.currentTrackIndex), |p.tracks|))
    ensures p.tracks == old(p.tracks) && p.showPlaylist == old(p.showPlaylist)
    ensures p.currentTrackIndex < |p.tracks| && p.boundSrc == p.tracks[p.currentTrackIndex].src
    ensures p.isPlaying == old(p.isPlaying) && playRequested == p.isPlaying
  {
    if forward {
      p.HandleNextTrack();
    } else {
      p.HandlePrevTrack();
    }
    playRequested := p.Reconcile(true);
  }

  /** An upload into a fresh player followed by skips: the first file's track
      is shown first, next moves to the second, and next again wraps round. */
  method UploadAndSkip(first: FileEntry, second: FileEntry)
    requires first.meta.Tags? && second.meta.Tags?
  {
    var p := new AudioPlayer();
    assert AllRead([first, second]);
    p.HandleUpload(Some([first, second]));
    assert p.tracks == [MakeTrack(first), MakeTrack(second)];
    var play := p.Reconcile(true);
    assert !play && p.boundSrc == first.handle;
    assert DisplayArtist(p.tracks, p.currentTrackIndex) != "";
    p.HandleNextTrack();
    assert p.currentTrackIndex == 1;
    play := p.Reconcile(true);
    assert p.boundSrc == second.handle;
    p.HandleNextTrack();
    assert p.currentTrackIndex == 0;
  }
}

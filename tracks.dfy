/** The track catalogue of the audio player and the import step that fills it:
    each selected file becomes one Track whose title and artist come from the
    file's tags, with fallbacks when a tag is absent or empty. */
module Tracks {
  import opened Options

  /** One playlist entry; `src` is the object URL the audio element plays. */
  datatype Track = Track(title: string, artist: string, src: string)

  /** What the metadata reader gives for one file: the title and artist tags
      (None when a tag is absent), or a failure to read the file. */
  datatype Metadata = Tags(title: Option<string>, artist: Option<string>) | ReadFailed

  /** What the import step has for one selected file: its name, the result of
      reading its metadata, and the object URL created for the file. */
  datatype FileEntry = FileEntry(name: string, meta: Metadata, handle: string)

  const UnknownArtist: string := "Unknown Artist"

  /** The regular expression /\.[^/.]+$/ matches `name` starting at `p`: a dot
      followed by at least one character, running to the end of the name, with
      no further dot and no slash after it. */
  predicate ExtensionAt(name: string, p: nat) {
    p + 1 < |name| && name[p] == '.' &&
    forall j :: p < j < |name| ==> name[j] != '.' && name[j] != '/'
  }

  /** No dot and no slash occurs in `name[j..]`. */
  predicate PlainFrom(name: string, j: nat)
    requires j <= |name|
  {
    forall k :: j <= k < |name| ==> name[k] != '.' && name[k] != '/'
  }

  /** Scans `name` backwards from position `j` for the start of the match. */
  function ScanExtension(name: string, j: nat): (r: Option<nat>)
    requires j <= |name| && PlainFrom(name, j)
    ensures r.Some? ==> ExtensionAt(name, r.value)
    ensures r.None? ==> forall p: nat :: !ExtensionAt(name, p)
    decreases j
  {
    if j == 0 then None
    else if name[j - 1] == '.' then (if j < |name| then Some(j - 1) else None)
    else if name[j - 1] == '/' then None
    else ScanExtension(name, j - 1)
  }

  /** `name.replace(/\.[^/.]+$/, "")`: the name without its last extension. */
  function StripExtension(name: string): (r: string)
    ensures r <= name
  {
    match ScanExtension(name, |name|)
    case Some(p) => name[..p]
    case None => name
  }

  /** The expression can match in at most one place. */
  lemma ExtensionUnique(name: string, p: nat, q: nat)
    requires ExtensionAt(name, p) && ExtensionAt(name, q)
    ensures p == q
  {
  }

  /** Where the expression matches, the title drops exactly the match. */
  lemma StripExtensionAtMatch(name: string, p: nat)
    requires ExtensionAt(name, p)
    ensures StripExtension(name) == name[..p]
    ensures |StripExtension(name)| < |name|
  {
    var r := ScanExtension(name, |name|);
    assert r.Some?;
    ExtensionUnique(name, p, r.value);
  }

  /** Where it does not match, the name is kept whole. */
  lemma StripExtensionNoMatch(name: string)
    requires forall p: nat :: !ExtensionAt(name, p)
    ensures StripExtension(name) == name
  {
  }

  lemma StripExtensionExamples()
    ensures StripExtension("a.mp3") == "a"
    ensures StripExtension("x.tar.gz") == "x.tar"
    ensures StripExtension("notes") == "notes"
    ensures StripExtension("take.") == "take."
    ensures StripExtension(".mp3") == ""
  {
    StripExtensionAtMatch(".mp3", 0);
    StripExtensionAtMatch("a.mp3", 1);
    StripExtensionAtMatch("x.tar.gz", 5);
    assert !ExtensionAt("take.", 4);
  }

  /** A tag that is present and non-empty, so that `||` keeps it. */
  predicate Usable(tag: Option<string>) {
    tag.Some? && tag.value != ""
  }

  /** `metadata.common.title || <stripped file name>`: an absent or empty tag
      falls back to the file name without its extension. */
  function TrackTitle(tags: Metadata, name: string): (r: string)
    requires tags.Tags?
    ensures Usable(tags.title) ==> r == tags.title.value
    ensures !Usable(tags.title) ==> r == StripExtension(name) && r <= name
  {
    if Usable(tags.title) then tags.title.value else StripExtension(name)
  }

  /** `metadata.common.artist || "Unknown Artist"`. */
  function TrackArtist(tags: Metadata): (r: string)
    requires tags.Tags?
    ensures r != ""
    ensures Usable(tags.artist) ==> r == tags.artist.value
    ensures !Usable(tags.artist) ==> r == UnknownArtist
  {
    if Usable(tags.artist) then tags.artist.value else UnknownArtist
  }

  /** The Track built for one uploaded file whose metadata was read. */
  function MakeTrack(f: FileEntry): (t: Track)
    requires f.meta.Tags?
    ensures t.src == f.handle
    ensures t.artist != ""
    ensures Usable(f.meta.artist) ==> t.artist == f.meta.artist.value
    ensures !Usable(f.meta.artist) ==> t.artist == UnknownArtist
    ensures Usable(f.meta.title) ==> t.title == f.meta.title.value
    ensures !Usable(f.meta.title) ==> t.title == StripExtension(f.name)
  {
    Track(TrackTitle(f.meta, f.name), TrackArtist(f.meta), f.handle)
  }

  /** A file read without usable tags (absent or empty) is still imported,
      named after its file: the name loses its extension where the expression
      matches and is kept whole where it does not. */
  lemma UntaggedFileFallback(f: FileEntry)
    requires f.meta.Tags? && !Usable(f.meta.title) && !Usable(f.meta.artist)
    ensures MakeTrack(f) == Track(StripExtension(f.name), UnknownArtist, f.handle)
    ensures forall p: nat :: ExtensionAt(f.name, p) ==> MakeTrack(f).title == f.name[..p]
    ensures (forall p: nat :: !ExtensionAt(f.name, p)) ==> MakeTrack(f).title == f.name
  {
    forall p: nat | ExtensionAt(f.name, p)
      ensures MakeTrack(f).title == f.name[..p]
    {
      StripExtensionAtMatch(f.name, p);
    }
  }

  /** Every file of the batch had its metadata read. */
  predicate AllRead(files: seq<FileEntry>) {
    forall k :: 0 <= k < |files| ==> files[k].meta.Tags?
  }

  /** The tracks one upload produces, in file order. */
  function Imported(files: seq<FileEntry>): seq<Track>
    requires AllRead(files)
  {
    if files == [] then [] else [MakeTrack(files[0])] + Imported(files[1..])
  }

  /** One track per file, the k-th built from the k-th file. */
  lemma {:induction false} ImportedAt(files: seq<FileEntry>)
    requires AllRead(files)
    ensures |Imported(files)| == |files|
    ensures forall k :: 0 <= k < |files| ==> Imported(files)[k] == MakeTrack(files[k])
  {
    if files != [] {
      ImportedAt(files[1..]);
      forall k | 0 <= k < |files|
        ensures Imported(files)[k] == MakeTrack(files[k])
      {
        if k > 0 {
          assert Imported(files)[k] == Imported(files[1..])[k - 1];
        }
      }
    }
  }

  /** Two uploads in a row yield the same tracks as one upload of both batches. */
  lemma {:induction false} ImportedAppend(a: seq<FileEntry>, b: seq<FileEntry>)
    requires AllRead(a) && AllRead(b)
    ensures AllRead(a + b)
    ensures Imported(a + b) == Imported(a) + Imported(b)
  {
    if a == [] {
      assert a + b == b;
    } else {
      assert (a + b)[1..] == a[1..] + b;
      ImportedAppend(a[1..], b);
    }
  }

  /** The loop of the upload handler: builds the new tracks one file at a
      time. Reading a file's metadata can fail; the failure is not caught, so
      it ends the whole upload and none of the batch's tracks is kept. */
  method ImportFiles(files: seq<FileEntry>) returns (newTracks: Option<seq<Track>>)
    ensures newTracks.Some? <==> AllRead(files)
    ensures newTracks.Some? ==> |newTracks.value| == |files|
    ensures newTracks.Some? ==> forall k :: 0 <= k < |files| ==> newTracks.value[k] == MakeTrack(files[k])
    ensures newTracks.Some? ==> newTracks.value == Imported(files)
  {
    var built: seq<Track> := [];
    for i := 0 to |files|
      invariant |built| == i
      invariant forall k :: 0 <= k < i ==> files[k].meta.Tags? && built[k] == MakeTrack(files[k])
    {
      if files[i].meta.ReadFailed? {
        return None;
      }
      built := built + [MakeTrack(files[i])];
    }
    ImportedAt(files);
    newTracks := Some(built);
  }
}

/**
 * The downloader's naming scheme (`TelegramParser.download_photos`): one
 * target path per (post, photo entry) pair, in post-then-photo order, named
 * `photos/<post id>_<photo id>.jpg`. The download itself is the client
 * library's business; what is modelled is the ordered list of targets, and
 * the failure the loop meets on an absent photo entry, whose photo id it
 * cannot read.
 */
module Download {
  import opened Wrappers
  import opened Text
  import opened Decimal
  import opened Messages
  import opened Grouping

  /** The directory photos are downloaded into. */
  const PhotosDir: string := "photos"

  /** The base name of a downloaded photo: the post id, an underscore, the photo id, `.jpg`. */
  function FileName(postId: string, photo: Media): (name: string)
    ensures IsPrefix(postId + "_", name)
    ensures |name| >= 4 && name[|name| - 4..] == ".jpg"
  {
    var digits := IntToString(photo.photoId);
    assert postId + "_" + digits + ".jpg" == (postId + "_") + (digits + ".jpg");
    postId + "_" + digits + ".jpg"
  }

  /**
   * The path a photo is downloaded to: the base name joined to the photo
   * directory the way POSIX path joining does, which keeps an absolute base
   * name (that of a post id starting with `/`) as it is. The base name is
   * always the last part of the path.
   */
  function TargetPath(postId: string, photo: Media): (path: string)
    ensures var name := FileName(postId, photo);
      |name| <= |path| && path[|path| - |name|..] == name
    ensures path[0] == '/' <==> postId != [] && postId[0] == '/'
  {
    var name := FileName(postId, photo);
    if name[0] == '/' then name else PhotosDir + "/" + name
  }

  predicate AllPresent(g: Group) {
    forall j :: 0 <= j < |g.photos| ==> g.photos[j].Some?
  }

  /** The base names one post's photos are saved under, in the post's order. */
  function PostFileNames(g: Group): (names: seq<string>)
    requires AllPresent(g)
    ensures |names| == |g.photos|
  {
    seq(|g.photos|, j requires 0 <= j < |g.photos| => FileName(g.message.id, g.photos[j].value))
  }

  /** The (post id, photo entry) pairs of one post, in the post's order. */
  function PostEntries(g: Group): (es: seq<(string, Option<Media>)>)
    ensures |es| == |g.photos|
  {
    seq(|g.photos|, j requires 0 <= j < |g.photos| => (g.message.id, g.photos[j]))
  }

  /** The pairs the download loop visits: post after post, photo after photo. */
  function Entries(gs: seq<Group>): (es: seq<(string, Option<Media>)>)
    ensures |es| == |FlattenPhotos(gs)|
  {
    if gs == [] then [] else Entries(gs[..|gs| - 1]) + PostEntries(gs[|gs| - 1])
  }

  /** The outcome of the naming loop. */
  datatype Outcome =
    | Scheduled(targets: seq<string>)
      // the entry at this position (in `Entries` order) has no photo, so its id cannot be read
    | AbsentPhoto(entry: nat)

  /** The first `n` entries of `es` all have a photo. */
  predicate PresentBefore(es: seq<(string, Option<Media>)>, n: nat)
    requires n <= |es|
  {
    forall k :: 0 <= k < n ==> es[k].1.Some?
  }

  /** `paths` names, in order, the first `|paths|` entries of `es`, all of them present. */
  predicate NamesFor(paths: seq<string>, es: seq<(string, Option<Media>)>) {
    && |paths| <= |es|
    && forall k :: 0 <= k < |paths| ==>
         es[k].1.Some? && paths[k] == TargetPath(es[k].0, es[k].1.value)
  }

  /**
   * The inner loop of `download_photos`: the targets of one post's photos,
   * in order, or the position of the first absent photo, which stops it.
   */
  method NamePostPhotos(postId: string, photos: seq<Option<Media>>)
    returns (names: seq<string>, missing: Option<nat>)
    ensures missing.None? ==>
      && |names| == |photos|
      && forall j :: 0 <= j < |photos| ==>
           photos[j].Some? && names[j] == TargetPath(postId, photos[j].value)
    ensures missing.Some? ==>
      && missing.value < |photos| && photos[missing.value] == None
      && forall j :: 0 <= j < missing.value ==> photos[j].Some?
  {
    names := [];
    for j := 0 to |photos|
      invariant |names| == j
      invariant forall k :: 0 <= k < j ==>
        photos[k].Some? && names[k] == TargetPath(postId, photos[k].value)
    {
      var photo := photos[j];
      if photo.None? {
        return names, Some(j);
      }
      names := names + [TargetPath(postId, photo.value)];
    }
    missing := None;
  }

  /**
   * The naming loop of `download_photos`: the target of every entry in
   * order, or, at the first absent photo entry, the failure that stops it.
   */
  method DownloadTargets(groups: seq<Group>) returns (r: Outcome)
    ensures r.Scheduled? <==> PresentBefore(Entries(groups), |Entries(groups)|)
    ensures r.Scheduled? ==> |r.targets| == |Entries(groups)| && NamesFor(r.targets, Entries(groups))
    ensures r.AbsentPhoto? ==>
      && r.entry < |Entries(groups)|
      && Entries(groups)[r.entry].1 == None
      && PresentBefore(Entries(groups), r.entry)
  {
    var paths: seq<string> := [];
    for g := 0 to |groups|
      invariant |paths| == |Entries(groups[..g])|
      invariant NamesFor(paths, Entries(groups[..g]))
    {
      var message := groups[g];
      var names, missing := NamePostPhotos(message.message.id, message.photos);
      EntriesStep(groups, g);
      if missing.Some? {
        NamesForPresent(paths, Entries(groups[..g]));
        AbsentEntry(groups, g, missing.value);
        return AbsentPhoto(|paths| + missing.value);
      }
      NamesForAppend(paths, Entries(groups[..g]), names, message);
      paths := paths + names;
    }
    assert groups[..|groups|] == groups;
    NamesForPresent(paths, Entries(groups));
    return Scheduled(paths);
  }

  lemma NamesForAppend(paths: seq<string>, es: seq<(string, Option<Media>)>, names: seq<string>, g: Group)
    requires |paths| == |es| && NamesFor(paths, es)
    requires |names| == |g.photos|
    requires forall j :: 0 <= j < |g.photos| ==>
      g.photos[j].Some? && names[j] == TargetPath(g.message.id, g.photos[j].value)
    ensures NamesFor(paths + names, es + PostEntries(g))
  {
    var all, more := paths + names, es + PostEntries(g);
    forall k | 0 <= k < |all|
      ensures more[k].1.Some? && all[k] == TargetPath(more[k].0, more[k].1.value)
    {
      if k >= |paths| {
        assert more[k] == PostEntries(g)[k - |paths|];
      }
    }
  }

  /** An absent photo in post `g` is an absent entry of all posts, after present ones. */
  lemma AbsentEntry(gs: seq<Group>, g: nat, j: nat)
    requires g < |gs| && j < |gs[g].photos| && gs[g].photos[j] == None
    requires forall i :: 0 <= i < j ==> gs[g].photos[i].Some?
    requires PresentBefore(Entries(gs[..g]), |Entries(gs[..g])|)
    ensures |Entries(gs[..g])| + j < |Entries(gs)|
    ensures Entries(gs)[|Entries(gs[..g])| + j].1 == None
    ensures PresentBefore(Entries(gs), |Entries(gs[..g])| + j)
  {
    var before := Entries(gs[..g]);
    var post := PostEntries(gs[g]);
    var n := |before|;
    forall k | 0 <= k < n + j ensures k < |Entries(gs)| && Entries(gs)[k].1.Some? {
      EntriesAt(gs, g, k);
      if k < n {
        assert (before + post)[k] == before[k];
      } else {
        assert (before + post)[k] == post[k - n];
      }
    }
    EntriesAt(gs, g, n + j);
    assert (before + post)[n + j] == post[j];
  }

  /** An entry within the first `g + 1` posts is the same in the entries of all posts. */
  lemma EntriesAt(gs: seq<Group>, g: nat, k: nat)
    requires g < |gs| && k < |Entries(gs[..g])| + |gs[g].photos|
    ensures k < |Entries(gs)|
    ensures Entries(gs)[k] == (Entries(gs[..g]) + PostEntries(gs[g]))[k]
  {
    EntriesStep(gs, g);
    EntriesPrefix(gs, g + 1);
    var head := Entries(gs[..g + 1]);
    assert Entries(gs)[k] == Entries(gs)[..|head|][k];
  }

  lemma NamesForPresent(paths: seq<string>, es: seq<(string, Option<Media>)>)
    requires NamesFor(paths, es)
    ensures PresentBefore(es, |paths|)
  {
  }

  lemma EntriesStep(gs: seq<Group>, g: nat)
    requires g < |gs|
    ensures Entries(gs[..g + 1]) == Entries(gs[..g]) + PostEntries(gs[g])
  {
    assert gs[..g + 1][..g] == gs[..g];
  }

  /** The entries of the first posts are a prefix of the entries of all posts. */
  lemma {:induction false} EntriesPrefix(gs: seq<Group>, n: nat)
    requires n <= |gs|
    ensures |Entries(gs[..n])| <= |Entries(gs)|
    ensures Entries(gs[..n]) == Entries(gs)[..|Entries(gs[..n])|]
    decreases |gs| - n
  {
    if n == |gs| {
      assert gs[..n] == gs;
    } else {
      EntriesPrefix(gs, n + 1);
      EntriesStep(gs, n);
    }
  }

  // ---------------------------------------------------------------------------
  // Properties of the naming scheme
  // ---------------------------------------------------------------------------

  /** There is one entry per photo entry of the posts, in the same order. */
  lemma {:induction false} EntriesFollowPhotos(gs: seq<Group>)
    ensures |Entries(gs)| == |FlattenPhotos(gs)|
    ensures forall k :: 0 <= k < |Entries(gs)| ==> Entries(gs)[k].1 == FlattenPhotos(gs)[k]
  {
    if gs != [] {
      EntriesFollowPhotos(gs[..|gs| - 1]);
    }
  }

  /**
   * Every photo entry of a post is named after that post: the `j`-th entry
   * of post `g` comes after the entries of the posts before it and is paired
   * with post `g`'s id.
   */
  lemma EntriesNamedAfterTheirPost(gs: seq<Group>, g: nat, j: nat)
    requires g < |gs| && j < |gs[g].photos|
    ensures |FlattenPhotos(gs[..g])| + j < |Entries(gs)|
    ensures Entries(gs)[|FlattenPhotos(gs[..g])| + j] == (gs[g].message.id, gs[g].photos[j])
  {
    var before := Entries(gs[..g]);
    var post := PostEntries(gs[g]);
    EntriesAt(gs, g, |before| + j);
    assert (before + post)[|before| + j] == post[j];
  }

  /**
   * The number of download targets after grouping is the number of records
   * up to and including the last one with text.
   */
  lemma TargetsCountAfterGrouping(rs: seq<Record>)
    ensures |Entries(GroupAll(rs))| == |rs| - |Pending(rs)|
  {
    EntriesFollowPhotos(GroupAll(rs));
    GroupsCoverUpToLastText(rs);
  }

  /**
   * A target is the base name inside the photo directory, unless the post id
   * starts with `/`: then the base name is an absolute path and is the target.
   */
  lemma TargetPathJoin(postId: string, photo: Media)
    ensures postId == [] || postId[0] != '/' ==>
      TargetPath(postId, photo) == "photos/" + FileName(postId, photo)
    ensures postId != [] && postId[0] == '/' ==>
      TargetPath(postId, photo) == FileName(postId, photo)
  {
    var name := FileName(postId, photo);
    assert name[0] == (postId + "_")[0];
  }

  /** Two targets coincide only for the same post id and the same photo id. */
  lemma TargetPathInjective(id1: string, p1: Media, id2: string, p2: Media)
    requires TargetPath(id1, p1) == TargetPath(id2, p2)
    ensures id1 == id2 && p1.photoId == p2.photoId
  {
    TargetPathJoin(id1, p1);
    TargetPathJoin(id2, p2);
    var n1, n2 := FileName(id1, p1), FileName(id2, p2);
    var abs1 := id1 != [] && id1[0] == '/';
    var abs2 := id2 != [] && id2[0] == '/';
    assert abs1 == abs2;
    if !abs1 {
      assert n1 == ("photos/" + n1)[7..];
      assert n2 == ("photos/" + n2)[7..];
    }
    FileNameInjective(id1, p1, id2, p2);
  }

  /** The id of a first line `/start 5` puts photo 7 at the root, not under `photos/`. */
  lemma AbsoluteIdExample()
    ensures TargetPath("/start", Media(7)) == "/start_7.jpg"
  {
    assert IntToString(7) == "7";
  }

  /** Cutting a string at its last occurrence of a marker character. */
  lemma SplitAtLastMarker(a1: string, b1: string, a2: string, b2: string, c: char)
    requires c !in b1 && c !in b2
    requires a1 + [c] + b1 == a2 + [c] + b2
    ensures a1 == a2 && b1 == b2
  {
    var s := a1 + [c] + b1;
    assert s[|a1|] == c;
    assert s[|a2|] == c by { assert s == a2 + [c] + b2; }
    assert forall i :: |a1| < i < |s| ==> s[i] == b1[i - |a1| - 1] && s[i] != c;
    assert forall i :: |a2| < i < |s| ==> s[i] == b2[i - |a2| - 1] && s[i] != c;
    assert |a1| == |a2|;
    assert a1 == s[..|a1|];
    assert a2 == s[..|a2|];
    assert b1 == s[|a1| + 1..];
    assert b2 == s[|a2| + 1..];
  }

  /**
   * Different (post id, photo id) pairs never share a file name: the only
   * collisions are the same photo under the same post id.
   */
  lemma FileNameInjective(id1: string, p1: Media, id2: string, p2: Media)
    requires FileName(id1, p1) == FileName(id2, p2)
    ensures id1 == id2 && p1.photoId == p2.photoId
  {
    var d1, d2 := IntToString(p1.photoId), IntToString(p2.photoId);
    var s1, s2 := id1 + "_" + d1, id2 + "_" + d2;
    assert s1 + ".jpg" == s2 + ".jpg";
    assert |s1| == |s2|;
    assert s1 == (s1 + ".jpg")[..|s1|];
    assert s2 == (s2 + ".jpg")[..|s2|];
    assert id1 + ['_'] + d1 == id2 + ['_'] + d2;
    SplitAtLastMarker(id1, d1, id2, d2, '_');
    IntToStringInjective(p1.photoId, p2.photoId);
  }
}

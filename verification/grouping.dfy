/**
 * The grouper (`TelegramParser.group_objects`): one pass over the records
 * with an accumulator of pending photos. A record with text closes a post
 * made of the pending photos plus its own photo entry (present or not); a
 * record without text only adds its photo entry. Entries still pending after
 * the last record with text are dropped.
 */
module Grouping {
  import opened Wrappers
  import opened Messages

  /** A post: the record carrying its text and the photo entries gathered for it. */
  datatype Group = Group(message: Record, photos: seq<Option<Media>>)

  predicate HasText(r: Record) {
    r.message != []
  }

  /** The photo entry of every record, in order. */
  function Photos(rs: seq<Record>): (ps: seq<Option<Media>>)
    ensures |ps| == |rs|
  {
    if rs == [] then [] else Photos(rs[..|rs| - 1]) + [rs[|rs| - 1].photo]
  }

  /** `Photos` lists each record's entry at that record's position. */
  lemma {:induction false} PhotosAt(rs: seq<Record>, i: nat)
    requires i < |rs|
    ensures Photos(rs)[i] == rs[i].photo
  {
    if i < |rs| - 1 {
      PhotosAt(rs[..|rs| - 1], i);
    }
  }

  lemma {:induction false} PhotosAppend(a: seq<Record>, b: seq<Record>)
    ensures Photos(a + b) == Photos(a) + Photos(b)
  {
    if b == [] {
      assert a + b == a;
    } else {
      PhotosAppend(a, b[..|b| - 1]);
      assert (a + b)[..|a + b| - 1] == a + b[..|b| - 1];
    }
  }

  /** A post: a record with text whose own entry ends a non-empty photo list. */
  predicate WellFormed(g: Group) {
    HasText(g.message) && g.photos != [] && g.photos[|g.photos| - 1] == g.message.photo
  }

  /**
   * The last `n` records have no text, and the record before them, if any,
   * has text.
   */
  predicate TextFreeTail(rs: seq<Record>, n: nat)
    requires n <= |rs|
  {
    && (forall i :: |rs| - n <= i < |rs| ==> !HasText(rs[i]))
    && (n < |rs| ==> HasText(rs[|rs| - n - 1]))
  }

  /** The records that carry text, in order. */
  function TextRecords(rs: seq<Record>): seq<Record> {
    if rs == [] then []
    else if HasText(rs[|rs| - 1]) then TextRecords(rs[..|rs| - 1]) + [rs[|rs| - 1]]
    else TextRecords(rs[..|rs| - 1])
  }

  /** The photo entries of all groups, group after group. */
  function FlattenPhotos(gs: seq<Group>): seq<Option<Media>> {
    if gs == [] then [] else FlattenPhotos(gs[..|gs| - 1]) + gs[|gs| - 1].photos
  }

  /**
   * The photo entries waiting for a text record after reading `rs`: they
   * belong to the last records, none of which has text, and the record just
   * before them, if any, has text.
   */
  function Pending(rs: seq<Record>): (ps: seq<Option<Media>>)
    ensures |ps| <= |rs| && TextFreeTail(rs, |ps|)
  {
    if rs == [] then []
    else if HasText(rs[|rs| - 1]) then []
    else Pending(rs[..|rs| - 1]) + [rs[|rs| - 1].photo]
  }

  /**
   * The groups emitted after reading `rs`. Every group holds a record with
   * text and at least one photo entry, the last of which is that record's
   * own entry, present or not.
   */
  function GroupAll(rs: seq<Record>): (gs: seq<Group>)
    ensures forall k :: 0 <= k < |gs| ==> WellFormed(gs[k])
  {
    if rs == [] then []
    else
      var last := rs[|rs| - 1];
      if HasText(last) then GroupAll(rs[..|rs| - 1]) + [Group(last, Pending(rs[..|rs| - 1]) + [last.photo])]
      else GroupAll(rs[..|rs| - 1])
  }

  /** The grouping pass, with the pending photo list as its accumulator. */
  method GroupObjects(objects: seq<Record>) returns (grouped: seq<Group>)
    ensures grouped == GroupAll(objects)
  {
    grouped := [];
    var photos: seq<Option<Media>> := [];
    for i := 0 to |objects|
      invariant grouped == GroupAll(objects[..i])
      invariant photos == Pending(objects[..i])
    {
      var obj := objects[i];
      assert objects[..i + 1][..i] == objects[..i];
      if obj.message != [] {
        photos := photos + [obj.photo];
        grouped := grouped + [Group(obj, photos)];
        photos := [];
      } else {
        photos := photos + [obj.photo];
      }
    }
    assert objects[..|objects|] == objects;
  }

  // ---------------------------------------------------------------------------
  // What the grouping keeps and what it drops
  // ---------------------------------------------------------------------------

  /**
   * The pending entries are those of the records after the last record with
   * text: a suffix of the input in which no record has text, preceded (if at
   * all) by a record with text.
   */
  lemma {:induction false} PendingIsTail(rs: seq<Record>)
    ensures var n := |rs| - |Pending(rs)|;
      && 0 <= n <= |rs|
      && Pending(rs) == Photos(rs[n..])
      && (forall i :: n <= i < |rs| ==> !HasText(rs[i]))
      && (n > 0 ==> HasText(rs[n - 1]))
  {
    if rs != [] && !HasText(rs[|rs| - 1]) {
      var init := rs[..|rs| - 1];
      PendingIsTail(init);
      var n := |init| - |Pending(init)|;
      assert rs[n..] == init[n..] + [rs[|rs| - 1]];
    }
  }

  /** One group per record with text, in order, each holding that record. */
  lemma {:induction false} GroupsFollowTextRecords(rs: seq<Record>)
    ensures |GroupAll(rs)| == |TextRecords(rs)|
    ensures forall k :: 0 <= k < |GroupAll(rs)| ==> GroupAll(rs)[k].message == TextRecords(rs)[k]
  {
    if rs != [] {
      GroupsFollowTextRecords(rs[..|rs| - 1]);
    }
  }

  /**
   * No photo entry is lost or reordered except the trailing ones: the groups'
   * entries, followed by the dropped ones, are the input's entries.
   */
  lemma {:induction false} GroupingKeepsOrder(rs: seq<Record>)
    ensures FlattenPhotos(GroupAll(rs)) + Pending(rs) == Photos(rs)
  {
    if rs != [] {
      var init := rs[..|rs| - 1];
      GroupingKeepsOrder(init);
      if HasText(rs[|rs| - 1]) {
        TextClosesGroup(rs);
      }
    }
  }

  lemma TextClosesGroup(rs: seq<Record>)
    requires rs != [] && HasText(rs[|rs| - 1])
    ensures var init, last := rs[..|rs| - 1], rs[|rs| - 1];
      FlattenPhotos(GroupAll(rs)) == FlattenPhotos(GroupAll(init)) + Pending(init) + [last.photo]
  {
    var init, last := rs[..|rs| - 1], rs[|rs| - 1];
    var gs := GroupAll(rs);
    assert gs[..|gs| - 1] == GroupAll(init);
  }

  /**
   * The groups' photo entries are exactly the input's entries up to and
   * including the last record with text; everything after it is dropped.
   */
  lemma GroupsCoverUpToLastText(rs: seq<Record>)
    ensures var n := |rs| - |Pending(rs)|;
      && FlattenPhotos(GroupAll(rs)) == Photos(rs[..n])
      && (n > 0 ==> HasText(rs[n - 1]))
      && (forall i :: n <= i < |rs| ==> !HasText(rs[i]))
  {
    GroupingKeepsOrder(rs);
    PendingIsTail(rs);
    var n := |rs| - |Pending(rs)|;
    assert rs == rs[..n] + rs[n..];
    PhotosAppend(rs[..n], rs[n..]);
    var f := FlattenPhotos(GroupAll(rs));
    assert f + Pending(rs) == Photos(rs[..n]) + Pending(rs);
    assert f == (f + Pending(rs))[..|f|];
  }

  /** Records without text emit nothing and all wait. */
  lemma {:induction false} NoTextNoGroups(ms: seq<Record>)
    requires forall i :: 0 <= i < |ms| ==> !HasText(ms[i])
    ensures GroupAll(ms) == [] && Pending(ms) == Photos(ms)
  {
    if ms != [] {
      NoTextNoGroups(ms[..|ms| - 1]);
    }
  }

  /** A run of records without text closed by one with text makes exactly one group. */
  lemma OneBlockOneGroup(ms: seq<Record>, t: Record)
    requires forall i :: 0 <= i < |ms| ==> !HasText(ms[i])
    requires HasText(t)
    ensures GroupAll(ms + [t]) == [Group(t, Photos(ms) + [t.photo])]
    ensures Pending(ms + [t]) == []
  {
    NoTextNoGroups(ms);
    assert (ms + [t])[..|ms|] == ms;
  }

  /**
   * Grouping restarts after every record with text: after such a record (or
   * at the start) the rest of the input is grouped on its own.
   */
  lemma {:induction false} GroupingSplitsAfterText(a: seq<Record>, b: seq<Record>)
    requires a == [] || HasText(a[|a| - 1])
    ensures GroupAll(a + b) == GroupAll(a) + GroupAll(b)
    ensures Pending(a + b) == Pending(b)
  {
    if b == [] {
      assert a + b == a;
    } else {
      GroupingSplitsAfterText(a, b[..|b| - 1]);
      assert (a + b)[..|a + b| - 1] == a + b[..|b| - 1];
    }
  }

  /** The worked example: two photo-only records, then the text that owns them. */
  lemma HouseExample(p1: Option<Media>, p2: Option<Media>, p3: Option<Media>)
    ensures var r1 := Record(1, NoId, "", p1);
      var r2 := Record(2, NoId, "", p2);
      var r3 := Record(3, "101", "101 Nice house", p3);
      GroupAll([r1, r2, r3]) == [Group(r3, [p1, p2, p3])]
  {
    var r1 := Record(1, NoId, "", p1);
    var r2 := Record(2, NoId, "", p2);
    var r3 := Record(3, "101", "101 Nice house", p3);
    OneBlockOneGroup([r1, r2], r3);
    assert [r1, r2] + [r3] == [r1, r2, r3];
    assert [r1, r2][..1] == [r1];
    assert Photos([r1]) == [p1];
    assert Photos([r1, r2]) == [p1, p2];
    assert Photos([r1, r2]) + [p3] == [p1, p2, p3];
    assert HasText(r3) && !HasText(r1) && !HasText(r2);
  }
}

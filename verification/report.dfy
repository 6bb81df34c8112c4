/**
 * The report writer (`create_excel_with_ids_and_text`): a header row, then,
 * only when the photo directory exists, one row per post holding its id, its
 * text and a photo cell. The photo cell is rewritten once for every listed
 * file whose name starts with the post id and an underscore, so the label of
 * the last match, with the number of matches, is what remains.
 */
module Report {
  import opened Wrappers
  import opened Text
  import opened Decimal
  import opened Messages
  import opened Grouping
  import opened Download

  type Row = seq<string>

  const Header: Row := ["ID", "Текст", "Фото"]

  /** The word the photo cell's label starts with. */
  const PhotoWord: string := "Фото "

  /** What the photo cell of a row holds after `k` matching files: nothing, or the k-th label. */
  function PhotoLabel(k: nat): (cell: string)
    ensures cell == "" <==> k == 0
    ensures k > 0 ==> IsPrefix(PhotoWord, cell)
  {
    if k == 0 then "" else PhotoWord + NatToString(k)
  }

  /** No listed file name starts with `prefix`. */
  predicate NoneMatch(listing: seq<string>, prefix: string) {
    forall k :: 0 <= k < |listing| ==> !IsPrefix(prefix, listing[k])
  }

  /** How many listed file names start with `prefix`: none exactly when no name does. */
  function CountPrefixed(listing: seq<string>, prefix: string): (n: nat)
    ensures n <= |listing|
    ensures n == 0 <==> NoneMatch(listing, prefix)
  {
    if listing == [] then 0
    else
      CountPrefixed(listing[..|listing| - 1], prefix)
        + (if IsPrefix(prefix, listing[|listing| - 1]) then 1 else 0)
  }

  /**
   * The row written for one post: its id, its text, and a photo cell that is
   * empty exactly when no listed file name starts with the id and an underscore.
   */
  function PostRow(g: Group, listing: seq<string>): (row: Row)
    ensures |row| == 3 && row[0] == g.message.id && row[1] == g.message.message
    ensures row[2] == "" <==> NoneMatch(listing, g.message.id + "_")
  {
    [g.message.id, g.message.message, PhotoLabel(CountPrefixed(listing, g.message.id + "_"))]
  }

  /** The worksheet: rows of cells, appended to and overwritten in place. */
  class Worksheet {
    var rows: seq<Row>

    constructor ()
      ensures rows == []
    {
      rows := [];
    }

    /** The number of the last row, counting from 1: the number of rows. */
    function MaxRow(): (n: nat)
      reads this
      ensures n == |rows|
    {
      |rows|
    }

    method Append(row: Row)
      modifies this
      ensures rows == old(rows) + [row]
    {
      rows := rows + [row];
    }

    /** Overwrites the cell at 1-based `row` and `column`. */
    method SetCell(row: nat, column: nat, value: string)
      requires 1 <= row <= |rows| && 1 <= column <= |rows[row - 1]|
      modifies this
      ensures rows == old(rows)[row - 1 := old(rows)[row - 1][column - 1 := value]]
    {
      rows := rows[row - 1 := rows[row - 1][column - 1 := value]];
    }
  }

  /**
   * The worksheet as saved: the header, then, if the photo directory exists,
   * one row per post in order with its id, its text and the label counting
   * the listed files named after its id.
   */
  method CreateReport(data: seq<Group>, photosDirExists: bool, listing: seq<string>)
    returns (sheet: seq<Row>)
    ensures |sheet| == if photosDirExists then |data| + 1 else 1
    ensures sheet[0] == Header
    ensures forall i :: 0 <= i < |sheet| - 1 ==>
      sheet[i + 1] == [data[i].message.id, data[i].message.message,
                       PhotoLabel(CountPrefixed(listing, data[i].message.id + "_"))]
  {
    var ws := new Worksheet();
    ws.Append(Header);
    if photosDirExists {
      for i := 0 to |data|
        invariant |ws.rows| == i + 1
        invariant ws.rows[0] == Header
        invariant forall k :: 0 <= k < i ==> ws.rows[k + 1] == PostRow(data[k], listing)
      {
        var messageId := data[i].message.id;
        var prefix := messageId + "_";
        ws.Append([messageId, data[i].message.message, ""]);
        WritePhotoCell(ws, listing, prefix);
      }
    }
    sheet := ws.rows;
  }

  /**
   * The inner loop of the report: for every listed file whose name starts
   * with `prefix`, the photo cell of the last row is overwritten with the
   * next label, so it ends with the label of the number of matches.
   */
  method WritePhotoCell(ws: Worksheet, listing: seq<string>, prefix: string)
    requires |ws.rows| >= 1 && |ws.rows[|ws.rows| - 1]| == 3 && ws.rows[|ws.rows| - 1][2] == ""
    modifies ws
    ensures ws.rows == old(ws.rows)[|old(ws.rows)| - 1 :=
      old(ws.rows)[|old(ws.rows)| - 1][2 := PhotoLabel(CountPrefixed(listing, prefix))]]
  {
    var last := |ws.rows| - 1;
    ghost var before := ws.rows;
    var photoCounter := 1;
    assert before[last][2 := PhotoLabel(0)] == before[last];
    for j := 0 to |listing|
      invariant photoCounter == CountPrefixed(listing[..j], prefix) + 1
      invariant ws.rows == before[last := before[last][2 := PhotoLabel(photoCounter - 1)]]
    {
      assert listing[..j + 1][..j] == listing[..j];
      if IsPrefix(prefix, listing[j]) {
        ws.SetCell(ws.MaxRow(), 3, PhotoWord + NatToString(photoCounter));
        assert before[last][2 := PhotoLabel(photoCounter - 1)][2 := PhotoLabel(photoCounter)]
          == before[last][2 := PhotoLabel(photoCounter)];
        photoCounter := photoCounter + 1;
      }
    }
    assert listing[..|listing|] == listing;
  }

  // ---------------------------------------------------------------------------
  // What the photo cell tells
  // ---------------------------------------------------------------------------

  /** The photo cell is empty exactly when no file matched, and it tells how many did. */
  lemma PhotoLabelTellsCount(a: nat, b: nat)
    ensures PhotoLabel(a) == "" <==> a == 0
    ensures PhotoLabel(a) == PhotoLabel(b) ==> a == b
  {
    if a != 0 && b != 0 && PhotoLabel(a) == PhotoLabel(b) {
      var n := |PhotoWord|;
      assert NatToString(a) == PhotoLabel(a)[n..];
      assert NatToString(b) == PhotoLabel(b)[n..];
      NatToStringRoundTrip(a);
      NatToStringRoundTrip(b);
    }
  }

  lemma {:induction false} CountPrefixedAppend(a: seq<string>, b: seq<string>, prefix: string)
    ensures CountPrefixed(a + b, prefix) == CountPrefixed(a, prefix) + CountPrefixed(b, prefix)
  {
    if b == [] {
      assert a + b == a;
    } else {
      CountPrefixedAppend(a, b[..|b| - 1], prefix);
      assert (a + b)[..|a + b| - 1] == a + b[..|b| - 1];
    }
  }

  lemma {:induction false} CountAllPrefixed(names: seq<string>, prefix: string)
    requires forall k :: 0 <= k < |names| ==> IsPrefix(prefix, names[k])
    ensures CountPrefixed(names, prefix) == |names|
  {
    if names != [] {
      CountAllPrefixed(names[..|names| - 1], prefix);
    }
  }

  /**
   * Every file a post's photos were saved under is counted in that post's
   * row, whatever else the directory holds.
   */
  lemma PostFilesCounted(listing: seq<string>, g: Group)
    requires AllPresent(g)
    ensures var prefix := g.message.id + "_";
      CountPrefixed(listing + PostFileNames(g), prefix) == CountPrefixed(listing, prefix) + |g.photos|
  {
    var prefix := g.message.id + "_";
    var names := PostFileNames(g);
    forall k | 0 <= k < |names| ensures IsPrefix(prefix, names[k]) {
      assert IsPrefix(prefix, FileName(g.message.id, g.photos[k].value));
    }
    CountAllPrefixed(names, prefix);
    CountPrefixedAppend(listing, names, prefix);
  }

  /**
   * Two posts with the same id share their files: each of their rows counts
   * the photos of both.
   */
  lemma SharedIdCountsBothPosts(g1: Group, g2: Group)
    requires AllPresent(g1) && AllPresent(g2)
    requires g1.message.id == g2.message.id
    ensures var listing := PostFileNames(g1) + PostFileNames(g2);
      && PostRow(g1, listing)[2] == PostRow(g2, listing)[2]
      && PostRow(g1, listing)[2] == PhotoLabel(|g1.photos| + |g2.photos|)
  {
    BothPostsCounted(g1, g2);
  }

  lemma BothPostsCounted(g1: Group, g2: Group)
    requires AllPresent(g1) && AllPresent(g2)
    requires g1.message.id == g2.message.id
    ensures CountPrefixed(PostFileNames(g1) + PostFileNames(g2), g1.message.id + "_")
      == |g1.photos| + |g2.photos|
  {
    var names1 := PostFileNames(g1);
    PostFilesCounted([], g1);
    assert [] + names1 == names1;
    PostFilesCounted(names1, g2);
  }

  /**
   * Matching is by prefix only, so a post whose id is another post's id
   * followed by an underscore has its files counted in that other post's row too.
   */
  lemma LongerIdFilesCounted(listing: seq<string>, g: Group, other: Group)
    requires AllPresent(other)
    requires IsPrefix(g.message.id + "_", other.message.id)
    ensures var prefix := g.message.id + "_";
      CountPrefixed(listing + PostFileNames(other), prefix) == CountPrefixed(listing, prefix) + |other.photos|
  {
    var prefix := g.message.id + "_";
    var names := PostFileNames(other);
    forall k | 0 <= k < |names| ensures IsPrefix(prefix, names[k]) {
      assert IsPrefix(prefix, FileName(other.message.id, other.photos[k].value));
      assert names[k][..|prefix|] == other.message.id[..|prefix|];
    }
    CountAllPrefixed(names, prefix);
    CountPrefixedAppend(listing, names, prefix);
  }
}

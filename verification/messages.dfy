/**
 * The message fetcher (`TelegramParser.get_messages`): every fetched message
 * becomes a record holding its platform id, the post id read from the first
 * line of its formatted text, its whitespace-normalised raw text and its
 * media attachment.
 */
module Messages {
  import opened Wrappers
  import opened Text

  /** An attachment as the client library hands it over; only its photo id is read. */
  datatype Media = Media(photoId: int)

  /**
   * A message as fetched: `text` is the formatted text (markup included),
   * `message` the raw text, `media` the attachment if there is one.
   */
  datatype Fetched = Fetched(telegramId: int, text: string, message: string, media: Option<Media>)

  /** The record the rest of the program works on. */
  datatype Record = Record(telegramId: int, id: string, message: string, photo: Option<Media>)

  /** The id given to a message whose first line holds no token. */
  const NoId: string := "No ID"

  /**
   * The post id: the first whitespace-delimited token of the stripped first
   * line, or the sentinel when that line is blank, with every `*` removed;
   * no id holds an asterisk.
   */
  function ExtractId(text: string): (id: string)
    ensures '*' !in id
  {
    var first := Strip(FirstLine(text));
    var tokens := Tokens(first);
    RemoveStars(if first != [] && |tokens| > 0 then tokens[0] else NoId)
  }

  /**
   * The record made from one fetched message: the platform id and the media
   * are carried over, the id holds no asterisk and the text is clean.
   */
  function Normalise(m: Fetched): (r: Record)
    ensures r.telegramId == m.telegramId && r.photo == m.media
    ensures '*' !in r.id && IsClean(r.message)
  {
    Record(m.telegramId, ExtractId(m.text), Clean(m.message), m.media)
  }

  lemma NormaliseFields(m: Fetched)
    ensures Normalise(m).id == ExtractId(m.text) && Normalise(m).message == Clean(m.message)
  {
  }

  /** One record per fetched message, in the order fetched. */
  method GetMessages(fetched: seq<Fetched>) returns (messages: seq<Record>)
    ensures |messages| == |fetched|
    ensures forall i :: 0 <= i < |fetched| ==>
      && messages[i].telegramId == fetched[i].telegramId
      && messages[i].id == ExtractId(fetched[i].text)
      && messages[i].message == Clean(fetched[i].message)
      && messages[i].photo == fetched[i].media
  {
    messages := [];
    for i := 0 to |fetched|
      invariant |messages| == i
      invariant forall k :: 0 <= k < i ==> messages[k] == Normalise(fetched[k])
    {
      var record := Normalise(fetched[i]);
      ghost var before := messages;
      messages := messages + [record];
      assert messages[..i] == before && messages[i] == record;
    }
    forall i | 0 <= i < |fetched|
      ensures messages[i].id == ExtractId(fetched[i].text)
      ensures messages[i].message == Clean(fetched[i].message)
    {
      NormaliseFields(fetched[i]);
    }
  }

  // ---------------------------------------------------------------------------
  // The id rule
  // ---------------------------------------------------------------------------

  /** The first token of a stripped, non-blank line is its leading word. */
  lemma FirstTokenIsWord(first: string)
    requires first != [] && !IsSpace(first[0])
    ensures Tokens(first) != [] && Tokens(first)[0] == Word(first)
  {
    TrimLeftNoOp(first);
  }

  /**
   * When the stripped first line is non-blank, the id is its leading word
   * (non-empty, whitespace-free, ended by whitespace or by the line's end)
   * with its asterisks removed; it may be empty when that word is all `*`.
   */
  lemma IdFromFirstWord(text: string)
    requires Strip(FirstLine(text)) != []
    ensures var first := Strip(FirstLine(text));
      var w := Word(first);
      && w != [] && IsPrefix(w, first) && NoSpace(w)
      && (|w| == |first| || IsSpace(first[|w|]))
      && ExtractId(text) == RemoveStars(w)
      && NoSpace(ExtractId(text))
  {
    var first := Strip(FirstLine(text));
    var l := TrimLeft(FirstLine(text));
    TrimRightSpec(l);
    assert !IsSpace(first[0]) by {
      assert first[0] == l[0];
    }
    FirstTokenIsWord(first);
    var w := Word(first);
    WordSpec(first);
    var id := RemoveStars(w);
    RemoveStarsSpec(w);
    forall i | 0 <= i < |id| ensures !IsSpace(id[i]) {
      assert id[i] in w;
    }
  }

  /** The sentinel comes out exactly when the first line is blank. */
  lemma {:induction false} IdSentinelIff(text: string)
    ensures ExtractId(text) == NoId <==> AllSpace(FirstLine(text))
  {
    StripEmptyIff(FirstLine(text));
    if Strip(FirstLine(text)) != [] {
      IdFromFirstWord(text);
      assert !NoSpace(NoId) by { assert IsSpace(NoId[2]); }
    }
  }

  lemma {:induction false} FirstLineOf(a: string, b: string)
    requires '\n' !in a
    ensures FirstLine(a + "\n" + b) == a
  {
    if a != [] {
      assert (a + "\n" + b)[1..] == a[1..] + "\n" + b;
      FirstLineOf(a[1..], b);
    }
  }

  lemma ExampleStrip()
    ensures Strip("***55*** ") == "***55***"
  {
    var line := "***55*** ";
    TrimLeftNoOp(line);
    assert line[..|line| - 1] == "***55***";
    TrimRightNoOp("***55***");
  }

  lemma ExampleWord()
    ensures Word("***55***") == "***55***"
  {
    WordSpec("***55***");
  }

  lemma ExampleStars()
    ensures RemoveStars("***55***") == "55"
  {
      assert "***55***"[1..] == "**55***";
      assert "**55***"[1..] == "*55***";
      assert "*55***"[1..] == "55***";
      assert "55***"[1..] == "5***";
      assert "5***"[1..] == "***";
      assert "***"[1..] == "**";
      assert "**"[1..] == "*";
      assert "*"[1..] == "";
  }

  /** The example of a bold id over a spaced-out body. */
  lemma StarredIdExample()
    ensures ExtractId("***55*** \nHello   world") == "55"
  {
    assert "***55*** \nHello   world" == "***55*** " + "\n" + "Hello   world";
    FirstLineOf("***55*** ", "Hello   world");
    ExampleStrip();
    FirstTokenIsWord("***55***");
    ExampleWord();
    ExampleStars();
  }
}

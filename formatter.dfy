/** The tail of `DiffAnalyzer.generate_commit_message` that tidies the model's
    response: strip it, split it once at its first blank line into a title and
    a body, strip both, and rejoin them with a single blank line. */
module Formatter {
  import opened Strings
  import opened Whitespace

  /** The commit message made from the response text: formatting only
      removes whitespace, so it never lengthens the response. */
  function FormatResponse(response: string): (message: string)
    ensures |message| <= |response|
  {
    var message := Strip(response);
    match FindBlankLine(message)
    case None => message
    case Some(i) => Strip(message[..i]) + "\n\n" + Strip(message[i + 2..])
  }

  /** The title the formatter keeps when the stripped response has a blank line at `i`. */
  function TitleAt(message: string, i: nat): string
    requires i <= |message|
  {
    Strip(message[..i])
  }

  /** The body the formatter keeps when the stripped response has a blank line at `i`. */
  function BodyAt(message: string, i: nat): string
    requires i + 2 <= |message|
  {
    Strip(message[i + 2..])
  }

  /** When a stripped response has a blank line, the title before the first
      one and the body after it are both non-empty, and the title has no blank
      line of its own. */
  lemma TitleAndBodyAreNonEmpty(message: string, i: nat)
    requires NoEdgeSpace(message) && FindBlankLine(message) == Some(i)
    ensures TitleAt(message, i) != [] && BodyAt(message, i) != []
    ensures NoBlankLine(TitleAt(message, i)) && !EndsWithNewline(TitleAt(message, i))
  {
    assert IsSpace('\n');
    var before := message[..i];
    assert i > 0 && before[0] == message[0];
    StripKeepsFirst(before);
    var after := message[i + 2..];
    assert |message| > i + 2;
    assert after[|after| - 1] == message[|message| - 1];
    StripKeepsLast(after);
    var title := TitleAt(message, i);
    StripIsSlice(before);
    var a := LeadingSpace(before);
    forall j | 0 <= j < |title| ensures !BlankAt(title, j) {
      if j + 1 < |title| {
        assert title[j] == message[a + j] && title[j + 1] == message[a + j + 1];
        assert !BlankAt(message, a + j);
      }
    }
  }

  /** The formatted message splits at its first blank line into the stripped
      title and the stripped body, blank lines inside the body included; a
      response with no blank line is only stripped. */
  lemma FormatSplitsOnce(response: string)
    ensures var message := Strip(response);
            match FindBlankLine(message)
            case None =>
              FormatResponse(response) == message && NoBlankLine(FormatResponse(response))
            case Some(i) =>
              var title, body := TitleAt(message, i), BodyAt(message, i);
              && title != [] && body != []
              && FindBlankLine(FormatResponse(response)) == Some(|title|)
              && FormatResponse(response)[..|title|] == title
              && FormatResponse(response)[|title| + 2..] == body
  {
    var message := Strip(response);
    match FindBlankLine(message)
    case None =>
    case Some(i) =>
      var title, body := TitleAt(message, i), BodyAt(message, i);
      TitleAndBodyAreNonEmpty(message, i);
      FirstBlankLineAfterPiece(title, body);
      var formatted := title + "\n\n" + body;
      assert FormatResponse(response) == formatted;
      assert formatted[..|title|] == title;
      assert formatted[|title| + 2..] == body;
  }

  /** The message never begins or ends with whitespace. */
  lemma FormatIsTrimmed(response: string)
    ensures NoEdgeSpace(FormatResponse(response))
  {
    var message := Strip(response);
    match FindBlankLine(message)
    case None =>
    case Some(i) =>
      TitleAndBodyAreNonEmpty(message, i);
      var title, body := TitleAt(message, i), BodyAt(message, i);
      var formatted := title + "\n\n" + body;
      assert formatted[0] == title[0];
      assert formatted[|formatted| - 1] == body[|body| - 1];
  }

  /** Formatting only moves whitespace: the non-whitespace text of the
      message is that of the response. */
  lemma FormatKeepsText(response: string)
    ensures Squeeze(FormatResponse(response)) == Squeeze(response)
  {
    var message := Strip(response);
    StripKeepsText(response);
    match FindBlankLine(message)
    case None =>
    case Some(i) =>
      var before, after := message[..i], message[i + 2..];
      assert message == before + "\n\n" + after;
      SqueezeConcat(before + "\n\n", after);
      SqueezeConcat(before, "\n\n");
      assert Squeeze("\n\n") == [] by { SqueezeAllSpace("\n\n"); }
      StripKeepsText(before);
      StripKeepsText(after);
      var title, body := Strip(before), Strip(after);
      SqueezeConcat(title + "\n\n", body);
      SqueezeConcat(title, "\n\n");
  }

  /** The message is empty exactly when the response is all whitespace; so a
      response with any text yields a non-empty title. */
  lemma FormatIsEmptyOnlyForBlankResponse(response: string)
    ensures FormatResponse(response) == [] <==> Squeeze(response) == []
    ensures Squeeze(response) != [] ==> !IsSpace(FormatResponse(response)[0])
  {
    FormatKeepsText(response);
    FormatIsTrimmed(response);
    var formatted := FormatResponse(response);
    if formatted != [] {
      assert Squeeze(formatted) == [formatted[0]] + Squeeze(formatted[1..]);
    }
  }

  /** Formatting a formatted message changes nothing. */
  lemma FormatIsIdempotent(response: string)
    ensures FormatResponse(FormatResponse(response)) == FormatResponse(response)
  {
    var formatted := FormatResponse(response);
    FormatIsTrimmed(response);
    FormatSplitsOnce(response);
    StripFixedPoint(formatted);
    var message := Strip(response);
    match FindBlankLine(message)
    case None =>
    case Some(i) =>
      var title, body := TitleAt(message, i), BodyAt(message, i);
      StripFixedPoint(title);
      StripFixedPoint(body);
      assert TitleAt(formatted, |title|) == title;
      assert BodyAt(formatted, |title|) == body;
  }
}

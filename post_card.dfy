/**
 * The post card's pure helpers: shortening the title and body for display,
 * choosing the avatar colour from the user id, and when to offer "Read more".
 */
module PostCard {
  import opened Wrappers
  import opened Posts
  import opened JsStrings

  /** The limits the card passes for the title and for the body. */
  const TitleMaxLength: nat := 50
  const BodyMaxLength: nat := 100

  const Ellipsis := "..."

  /**
   * `truncateText`: a missing or empty text gives `''`; a text of at most
   * `maxLength` code units is kept whole; a longer one is cut after
   * `maxLength` code units, possibly between the two halves of a surrogate
   * pair, and followed by `'...'`. The result is the code units displayed.
   * The default limit of 120 is left out: both callers pass one.
   */
  function TruncateText(text: Option<string>, maxLength: nat): (r: seq<CodeUnit>)
    ensures text.None? || text.value == "" ==> r == []
    ensures text.Some? && JsLength(text.value) <= maxLength ==> r == Utf16(text.value)
    ensures text.Some? && JsLength(text.value) > maxLength ==>
      |r| == maxLength + |Ellipsis| && r[..maxLength] == Utf16(text.value)[..maxLength] && r[maxLength..] == Utf16(Ellipsis)
    ensures |r| <= maxLength + |Ellipsis|
  {
    match text
    case None => []
    case Some(t) =>
      if t == "" then []
      else if JsLength(t) > maxLength then Utf16(t)[..maxLength] + Utf16(Ellipsis)
      else Utf16(t)
  }

  /** The avatar palette. */
  const Palette := ["#FF6B6B", "#4ECDC4", "#45B7D1", "#96CEB4", "#FFEAA7", "#DDA0DD", "#98D8C8"]

  /**
   * JavaScript's `a % 7`: division truncates, so the remainder is congruent to
   * `a`, smaller than 7 in size, and takes the sign of `a`.
   */
  function JsRemainder7(a: int): (r: int)
    ensures -7 < r < 7 && (a - r) % 7 == 0
    ensures a >= 0 ==> r >= 0
    ensures a < 0 ==> r <= 0
  {
    if a >= 0 then a % 7 else -((-a) % 7)
  }

  /**
   * `getUserColor`: `colors[userId % colors.length]`. For a non-negative id this
   * is the palette entry at the id modulo 7; a negative id gives a negative
   * index, which reads `undefined`, except for multiples of 7, whose index
   * `-0` reads the first entry.
   */
  function GetUserColor(userId: int): (c: Option<string>)
    ensures userId >= 0 ==> c == Some(Palette[userId % |Palette|])
    ensures c.Some? ==> c.value in Palette
    ensures c.None? <==> userId < 0 && userId % |Palette| != 0
    ensures userId < 0 && userId % |Palette| == 0 ==> c == Some(Palette[0])
  {
    var i := JsRemainder7(userId);
    if i >= 0 then Some(Palette[i]) else None
  }

  /** Users seven ids apart share a colour. */
  lemma {:induction false} GetUserColorPeriodic(userId: nat)
    ensures GetUserColor(userId + |Palette|) == GetUserColor(userId)
  {
    assert (userId + 7) % 7 == userId % 7;
  }

  /** The title as the card shows it: whole up to 50 code units, else cut there with `'...'`. */
  function CardTitle(p: Post): (t: seq<CodeUnit>)
    ensures |t| <= TitleMaxLength + |Ellipsis|
    ensures JsLength(p.title) <= TitleMaxLength ==> t == Utf16(p.title)
    ensures JsLength(p.title) > TitleMaxLength ==> t == Utf16(p.title)[..TitleMaxLength] + Utf16(Ellipsis)
  {
    TruncateText(Some(p.title), TitleMaxLength)
  }

  /** The body as the card shows it: whole up to 100 code units, else cut there with `'...'`. */
  function CardBody(p: Post): (b: seq<CodeUnit>)
    ensures |b| <= BodyMaxLength + |Ellipsis|
    ensures JsLength(p.body) <= BodyMaxLength ==> b == Utf16(p.body)
    ensures JsLength(p.body) > BodyMaxLength ==> b == Utf16(p.body)[..BodyMaxLength] + Utf16(Ellipsis)
  {
    TruncateText(Some(p.body), BodyMaxLength)
  }

  /** The "Read more" link: `post.body && post.body.length > 100`. */
  predicate ShowReadMore(p: Post)
  {
    p.body != "" && JsLength(p.body) > BodyMaxLength
  }

  /** "Read more" is offered exactly when the body shown was cut short. */
  lemma ReadMoreExactlyWhenCut(p: Post)
    ensures ShowReadMore(p) <==> |CardBody(p)| > BodyMaxLength
    ensures !ShowReadMore(p) ==> CardBody(p) == Utf16(p.body)
  {
  }
}

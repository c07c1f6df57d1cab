/** `sharedArticleValidation`: cleaning and checking the title and body of an article form. */
module Articles {
  import opened JsString
  import opened Records

  /** A title is refused from this many UTF-16 code units on, so at most 29 pass. */
  const TitleLimit: nat := 30

  /** The cleaned fields (written back into the request) and the messages, in the order they are pushed. */
  datatype Checked = Checked(title: string, body: string, errors: seq<Message>)

  /** The position of each article message in the check; any other message comes after them. */
  function Rank(m: Message): nat {
    match m
    case EmptyTitle => 0
    case EmptyBody => 1
    case TitleTooLong => 2
    case _ => 3
  }

  /**
   * Trims both fields and strips every HTML tag from them (`strip` stands for the sanitiser
   * with no tag allowed), then reports an empty title, an empty body and a title of 30 or more
   * code units, in that order. A missing field arrives here as the empty string.
   */
  function CheckArticle(strip: string -> string, title: string, body: string): (c: Checked)
    ensures c.title == strip(Trim(title)) && c.body == strip(Trim(body))
    ensures EmptyTitle in c.errors <==> c.title == []
    ensures EmptyBody in c.errors <==> c.body == []
    ensures TitleTooLong in c.errors <==> JsLength(c.title) >= TitleLimit
    ensures forall i :: 0 <= i < |c.errors| ==> Rank(c.errors[i]) < 3
    ensures forall i :: 0 < i < |c.errors| ==> Rank(c.errors[i - 1]) < Rank(c.errors[i])
    ensures c.errors == [] <==> c.title != [] && c.body != [] && JsLength(c.title) < TitleLimit
  {
    var t := strip(Trim(title));
    var b := strip(Trim(body));
    Checked(t, b, ArticleErrors(t == [], b == [], JsLength(t) >= TitleLimit))
  }

  /** The three pushes of the check, each made when its condition holds. */
  function ArticleErrors(emptyTitle: bool, emptyBody: bool, tooLong: bool): (errors: seq<Message>)
    ensures EmptyTitle in errors <==> emptyTitle
    ensures EmptyBody in errors <==> emptyBody
    ensures TitleTooLong in errors <==> tooLong
    ensures forall i :: 0 <= i < |errors| ==> Rank(errors[i]) < 3
    ensures forall i :: 0 < i < |errors| ==> Rank(errors[i - 1]) < Rank(errors[i])
  {
    PushIf(PushIf(PushIf([], emptyTitle, EmptyTitle), emptyBody, EmptyBody), tooLong, TitleTooLong)
  }

  /** `if (cond) errors.push(m)` */
  function PushIf(errors: seq<Message>, cond: bool, m: Message): seq<Message> {
    if cond then errors + [m] else errors
  }
}

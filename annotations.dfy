/**
 * The records the renderer reads and the message it writes.
 *
 * An annotation arrives as a JSON object from the annotation search API.
 * The keys the renderer indexes directly (`user`, `user_info`, `uri`,
 * `links.incontext`) are plain fields here; the keys it reads with `.get`,
 * or inside a `try`, are `Option`s.
 */
module Annotations {
  import opened Wrappers

  /** One entry of `target[].selector[]`; only `exact` (the quoted passage) matters. */
  datatype Selector = Selector(exact: Option<string>)

  /** One entry of `target[]`; `selector` is `None` when the key is missing. */
  datatype Target = Target(selector: Option<seq<Selector>>)

  datatype Annotation = Annotation(
    user: string,                  // `user`, normally "acct:<username>@<authority>"
    displayName: Option<string>,   // `user_info.display_name` (may be null)
    uri: string,                   // `uri`
    incontext: string,             // `links.incontext`
    title: Option<seq<string>>,    // `document.title`; None when `document` or `title` is missing
    text: Option<string>,          // `text`
    references: Option<seq<string>>, // `references`
    target: Option<seq<Target>>)   // `target`

  /** The two text-object types a Slack block carries: "mrkdwn" and "plain_text". */
  datatype TextType = Mrkdwn | PlainText

  datatype TextObject = TextObject(kind: TextType, text: string)

  /** A Slack block: a section (summary text and fields), a divider, or a context block. */
  datatype Block =
    | Section(text: TextObject, fields: seq<TextObject>)
    | Divider
    | Context(elements: seq<TextObject>)

  /** The message payload: `{}` when there is nothing to post, else `text` and `blocks`. */
  datatype Payload = Empty | Message(text: string, blocks: seq<Block>)
}

/**
  The comment body: a rich-text document of version 1 holding one paragraph
  that holds one text node, the message, marked `strong`. The document is
  modelled as a value; its JSON text is not.
 */
module Payload {
  import opened Wrappers

  /** A formatting mark such as `{ type: "strong" }`. */
  datatype Mark = Mark(markType: string)

  /** An inline node `{ type, text, marks }`. */
  datatype Inline = Inline(nodeType: string, text: string, marks: seq<Mark>)

  /** A block node `{ type, content }`. */
  datatype Block = Block(nodeType: string, content: seq<Inline>)

  /** A document `{ type, version, content }`. */
  datatype Doc = Doc(docType: string, version: int, content: seq<Block>)

  /** The request body `{ body: <document> }`. */
  datatype CommentBody = CommentBody(body: Doc)

  /** `b` has exactly the fixed structure the action sends, whatever its text. */
  predicate IsBoldParagraphDoc(b: CommentBody) {
    && b.body.docType == "doc"
    && b.body.version == 1
    && |b.body.content| == 1
    && b.body.content[0].nodeType == "paragraph"
    && |b.body.content[0].content| == 1
    && b.body.content[0].content[0].nodeType == "text"
    && b.body.content[0].content[0].marks == [Mark("strong")]
  }

  /** Reads the message back out of a body of the fixed structure; anything else has none. */
  function MessageOf(b: CommentBody): Option<string>
  {
    if IsBoldParagraphDoc(b) then Some(b.body.content[0].content[0].text) else None
  }

  /** The body that `postJiraComment` builds around `message`. */
  function ComposeBody(message: string): (b: CommentBody)
    ensures IsBoldParagraphDoc(b)
    ensures MessageOf(b) == Some(message)
  {
    CommentBody(Doc("doc", 1, [Block("paragraph", [Inline("text", message, [Mark("strong")])])]))
  }

  /** The message is the only part that varies: a body of the fixed structure is the composition of its own text. */
  lemma ComposeOfMessage(b: CommentBody)
    requires IsBoldParagraphDoc(b)
    ensures ComposeBody(MessageOf(b).value) == b
  {
    var p := b.body.content[0];
    assert b.body.content == [p];
    assert p.content == [p.content[0]];
  }

  /** Different messages give different bodies. */
  lemma ComposeInjective(m1: string, m2: string)
    requires ComposeBody(m1) == ComposeBody(m2)
    ensures m1 == m2
  {
    assert MessageOf(ComposeBody(m1)) == Some(m1);
  }
}

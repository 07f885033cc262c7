/** `extract_email_body`: the plain-text and HTML bodies of a parsed message.
    The MIME walk and payload decoding belong to Python's `email` package;
    each part arrives here with its content type and the outcome of
    `get_payload(decode=True).decode(...)`, where `None` stands for an
    exception raised while decoding. */
module EmailBody {
  import opened Wrappers

  const TextPlain: string := "text/plain"
  const TextHtml: string := "text/html"

  /** One part of `msg.walk()`: its content type (as `get_content_type`
      reports it) and its decoded text, or `None` when decoding raised */
  datatype Part = Part(contentType: string, decoded: Option<string>)

  /** A non-multipart message is its own single part; a multipart message is
      the sequence of parts `msg.walk()` yields, container parts included. */
  datatype Message = SinglePart(part: Part) | MultiPart(walk: seq<Part>)

  /** The dictionary `{"plain": ..., "html": ...}`: both keys always present */
  datatype Body = Body(plain: string, html: string)

  /** The text a part adds to the body of the given content type: its
      decoded text when its type matches and decoding succeeded, else nothing */
  function Contribution(part: Part, contentType: string): string {
    if part.contentType == contentType && part.decoded.Some? then part.decoded.value else ""
  }

  /** Reference definition: the decoded texts of the parts of the given type,
      concatenated in walk order */
  function Collect(parts: seq<Part>, contentType: string): string {
    if parts == [] then "" else Contribution(parts[0], contentType) + Collect(parts[1..], contentType)
  }

  /** Collecting over a concatenation concatenates the collections. */
  lemma {:induction false} CollectAppend(a: seq<Part>, b: seq<Part>, contentType: string)
    ensures Collect(a + b, contentType) == Collect(a, contentType) + Collect(b, contentType)
    decreases |a|
  {
    if a == [] {
      assert a + b == b;
    } else {
      assert (a + b)[1..] == a[1..] + b;
      CollectAppend(a[1..], b, contentType);
    }
  }

  /** The loop's step: one more part appends its contribution. */
  lemma CollectSnoc(parts: seq<Part>, part: Part, contentType: string)
    ensures Collect(parts + [part], contentType) == Collect(parts, contentType) + Contribution(part, contentType)
  {
    CollectAppend(parts, [part], contentType);
  }

  /** `extract_email_body(msg)`. A multipart message appends, part by part,
      every decoded `text/plain` part to `plain` and every decoded
      `text/html` part to `html`; a part whose decoding raises is skipped
      and the walk goes on. A single-part message fills at most one field. */
  method ExtractEmailBody(msg: Message) returns (body: Body)
    ensures msg.MultiPart? ==> body.plain == Collect(msg.walk, TextPlain)
    ensures msg.MultiPart? ==> body.html == Collect(msg.walk, TextHtml)
    ensures msg.SinglePart? ==> body.plain == Contribution(msg.part, TextPlain)
    ensures msg.SinglePart? ==> body.html == Contribution(msg.part, TextHtml)
    ensures msg.SinglePart? ==> body.plain == "" || body.html == ""
  {
    var plain := "";
    var html := "";
    match msg {
      case MultiPart(walk) =>
        var i := 0;
        while i < |walk|
          invariant 0 <= i <= |walk|
          invariant plain == Collect(walk[..i], TextPlain)
          invariant html == Collect(walk[..i], TextHtml)
        {
          var part := walk[i];
          if part.contentType == TextPlain {
            if part.decoded.Some? {
              plain := plain + part.decoded.value;
            }
          } else if part.contentType == TextHtml {
            if part.decoded.Some? {
              html := html + part.decoded.value;
            }
          }
          CollectSnoc(walk[..i], part, TextPlain);
          CollectSnoc(walk[..i], part, TextHtml);
          assert walk[..i + 1] == walk[..i] + [part];
          i := i + 1;
        }
        assert walk[..|walk|] == walk;
      case SinglePart(part) =>
        if part.decoded.Some? {
          if part.contentType == TextPlain {
            plain := part.decoded.value;
          } else if part.contentType == TextHtml {
            html := part.decoded.value;
          }
        }
    }
    body := Body(plain, html);
  }

  /** A part that contributes nothing — another content type, or a decoding
      failure — can be dropped without changing the result. */
  lemma CollectSkipsPart(a: seq<Part>, part: Part, b: seq<Part>, contentType: string)
    requires part.contentType != contentType || part.decoded.None?
    ensures Collect(a + [part] + b, contentType) == Collect(a + b, contentType)
  {
    CollectAppend(a + [part], b, contentType);
    CollectSnoc(a, part, contentType);
    CollectAppend(a, b, contentType);
  }

  /** Without a decodable part of the given type, the field stays `""`. */
  lemma {:induction false} CollectNone(parts: seq<Part>, contentType: string)
    requires forall i :: 0 <= i < |parts| ==> parts[i].contentType != contentType || parts[i].decoded.None?
    ensures Collect(parts, contentType) == ""
    decreases |parts|
  {
    if parts != [] {
      CollectNone(parts[1..], contentType);
    }
  }

  /** Every decodable part of the given type is in the result, in place:
      what the parts before it collect, then its text, then what the parts
      after it collect. */
  lemma CollectContains(parts: seq<Part>, i: int, contentType: string)
    requires 0 <= i < |parts|
    requires parts[i].contentType == contentType && parts[i].decoded.Some?
    ensures Collect(parts, contentType)
         == Collect(parts[..i], contentType) + parts[i].decoded.value + Collect(parts[i + 1..], contentType)
  {
    assert parts == parts[..i] + [parts[i]] + parts[i + 1..];
    CollectAppend(parts[..i] + [parts[i]], parts[i + 1..], contentType);
    CollectSnoc(parts[..i], parts[i], contentType);
  }

  /** A single-part message is read exactly like a multipart message whose
      walk yields that one part. */
  lemma SingleAsMultiPart(part: Part, contentType: string)
    ensures Collect([part], contentType) == Contribution(part, contentType)
  {
    assert [part][1..] == [];
  }
}

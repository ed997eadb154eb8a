/** What the script sees of the hosted agent service: the messages an
    agent posts to a thread and the URL citations attached to them. */
module Messages {

  /** Python's `None` or a value. */
  datatype Option<T> = None | Some(value: T)

  /** One URL-citation annotation: the span of answer text it is attached
      to (empty when the service gives none), the cited URL, and the page
      title, which the service may leave out. */
  datatype Annotation = Annotation(text: string, url: string, title: Option<string>)

  /** An agent message: its identifier, its text segments in order, and its
      URL-citation annotations in order. */
  datatype Message = Message(id: string, segments: seq<string>, annotations: seq<Annotation>)
}

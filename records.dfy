/** The values the pipeline works on: attribute values, flat records and the parsed markup tree. */
module Records {

  /** A field value. Feed attributes arrive as strings; the counters the pipeline writes are
      integers. The two are never equal to each other, as in the original's dynamic typing. */
  datatype Value = Str(s: string) | Int(n: int)

  /** A flat record (one dictionary per emitted event), and equally an element's attributes. */
  type Row = map<string, Value>

  /** A parsed markup node: an element with a tag, attributes and its contents, or a text node. */
  datatype Node =
    | Element(tag: string, attrs: Row, children: seq<Node>)
    | Text(text: string)

  datatype Option<T> = None | Some(value: T)

  function Last<T>(s: seq<T>): T
    requires |s| > 0
  {
    s[|s| - 1]
  }

  function DropLast<T>(s: seq<T>): seq<T>
    requires |s| > 0
  {
    s[..|s| - 1]
  }

  /** Overwriting the first element after a finished prefix moves it into the prefix. */
  lemma WriteNext<T>(done: seq<T>, rest: seq<T>, x: T)
    requires |rest| > 0
    ensures (done + rest)[|done| := x] == (done + [x]) + rest[1..]
  {
  }
}

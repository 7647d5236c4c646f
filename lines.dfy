/** The records the outline extractor consumes and produces. A line record is
    what the PDF reader hands over for one physical line of text; the core never
    builds one itself. */
module Lines {

  datatype Option<T> = None | Some(value: T)

  /** A bounding box `(x0, y0, x1, y1)` in page coordinates, y growing downwards. */
  datatype BBox = BBox(x0: real, y0: real, x1: real, y1: real)

  /** One line of text with its typographic attributes: the largest span font
      size, the largest span flag value, and the first span's box. */
  datatype TextLine = TextLine(text: string, page: int, fontSize: real, fontFlags: int, bbox: BBox)

  /** Heading depth, H1 being the most prominent. */
  datatype Level = H1 | H2 | H3 | H4 {
    /** Position in the order H1 < H2 < H3 < H4. */
    function Rank(): nat {
      match this
      case H1 => 1
      case H2 => 2
      case H3 => 3
      case H4 => 4
    }

    /** The label written to the JSON output. */
    function Label(): string {
      match this
      case H1 => "H1"
      case H2 => "H2"
      case H3 => "H3"
      case H4 => "H4"
    }
  }

  datatype HeadingEntry = HeadingEntry(level: Level, text: string, page: int)

  datatype OutlineResult = OutlineResult(title: string, outline: seq<HeadingEntry>)
}

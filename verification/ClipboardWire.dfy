/** Module `proto` of src/clipboard.rs: clipboard items to protocol records and back. */
module ClipboardWire {
  import opened Options
  import opened Octets

  datatype Picture =
    | Rgba(width: Usize, height: Usize, pixels: Bytes)
    | Png(file: Bytes)
    | Svg(text: Str)

  /** `Other` stands for the kinds the codec drops, file lists and empty entries. */
  datatype Item =
    | Text(text: Str)
    | Rtf(text: Str)
    | Html(text: Str)
    | Image(picture: Picture)
    | Special(name: string, data: Bytes)
    | Other

  datatype Format = TextFormat | RtfFormat | HtmlFormat | RgbaFormat | PngFormat | SvgFormat | SpecialFormat | Unknown

  datatype Record = Record(
    compressed: bool, content: Bytes, width: Int32, height: Int32, format: Format, specialName: string)

  /** The two compression functions, each allowed to fail by returning anything. */
  datatype Codec = Codec(compress: Bytes -> Bytes, decompress: Bytes -> Bytes) {
    ghost predicate Lossless() {
      forall d: Bytes :: decompress(compress(d)) == d
    }

    predicate Shortens(d: Bytes) {
      |compress(d)| < |d|
    }
  }

  // --- encoding ---

  function Packed(codec: Codec, d: Bytes, format: Format): Record {
    var short := codec.Shortens(d);
    Record(short, if short then codec.compress(d) else d, 0, 0, format, "")
  }

  function ImageToProto(codec: Codec, p: Picture): Record {
    match p
    case Rgba(w, h, pixels) => Packed(codec, pixels, RgbaFormat).(width := ToInt32(w), height := ToInt32(h))
    case Png(file) => Record(false, file, 0, 0, PngFormat, "")
    case Svg(text) => Packed(codec, text, SvgFormat)
  }

  /** An incompressible special item is sent with the bytes of its name as its content. */
  function SpecialToProto(codec: Codec, name: string, data: Bytes): Record {
    var short := codec.Shortens(data);
    Record(short, if short then codec.compress(data) else EncodeUtf8(name), 0, 0, SpecialFormat, name)
  }

  function ToProto(codec: Codec, item: Item): Option<Record> {
    match item
    case Text(s) => Some(Packed(codec, s, TextFormat))
    case Rtf(s) => Some(Packed(codec, s, RtfFormat))
    case Html(s) => Some(Packed(codec, s, HtmlFormat))
    case Image(p) => Some(ImageToProto(codec, p))
    case Special(name, data) => Some(SpecialToProto(codec, name, data))
    case Other => None
  }

  function CreateMultiClipboards(codec: Codec, items: seq<Item>): seq<Record> {
    if items == [] then []
    else
      var rest := CreateMultiClipboards(codec, items[1..]);
      match ToProto(codec, items[0])
      case Some(r) => [r] + rest
      case None => rest
  }

  // --- decoding ---

  function FromProto(codec: Codec, r: Record): Option<Item> {
    var data := if r.compressed then codec.decompress(r.content) else r.content;
    match r.format
    case TextFormat => if Utf8(data) then Some(Text(data)) else None
    case RtfFormat => if Utf8(data) then Some(Rtf(data)) else None
    case HtmlFormat => if Utf8(data) then Some(Html(data)) else None
    case RgbaFormat => Some(Image(Rgba(ToUsize(r.width), ToUsize(r.height), data)))
    case PngFormat => Some(Image(Png(data)))
    case SvgFormat => Some(Image(Svg(if Utf8(data) then data else [])))
    case SpecialFormat => Some(Special(r.specialName, data))
    case Unknown => None
  }

  function FromMultiClipboards(codec: Codec, records: seq<Record>): seq<Item> {
    if records == [] then []
    else
      var rest := FromMultiClipboards(codec, records[1..]);
      match FromProto(codec, records[0])
      case Some(item) => [item] + rest
      case None => rest
  }

  // --- the round trip ---

  /** The bytes come back: they were sent as they are, or decompress to themselves. */
  predicate Intact(codec: Codec, d: Bytes) {
    |codec.compress(d)| < |d| ==> codec.decompress(codec.compress(d)) == d
  }

  /** Exactly the items the other side gets unchanged, under any compressor. */
  predicate Survives(codec: Codec, item: Item) {
    match item
    case Text(s) => Intact(codec, s)
    case Rtf(s) => Intact(codec, s)
    case Html(s) => Intact(codec, s)
    case Image(Rgba(w, h, pixels)) => Intact(codec, pixels) && FitsInt32(w) && FitsInt32(h)
    case Image(Png(_)) => true
    case Image(Svg(text)) => Intact(codec, text)
    case Special(name, data) => if |codec.compress(data)| < |data| then Intact(codec, data) else data == EncodeUtf8(name)
    case Other => false
  }

  /** What an item looks like on the wire: its format, when its bytes are compressed, and what
      is sent otherwise. `bytes` are the item's own, `plain` those sent uncompressed. */
  ghost predicate Carries(codec: Codec, r: Record, format: Format, bytes: Bytes, plain: Bytes) {
    && r.format == format
    && (r.compressed <==> |codec.compress(bytes)| < |bytes|)
    && r.content == if r.compressed then codec.compress(bytes) else plain
  }

  ghost predicate Unsized(r: Record) {
    r.width == 0 && r.height == 0 && r.specialName == ""
  }

  /** The records of all kinds of items. */
  lemma RecordOfItem(codec: Codec, item: Item)
    ensures match ToProto(codec, item)
            case None => item.Other?
            case Some(r) =>
              match item
              case Text(s) => Carries(codec, r, TextFormat, s, s) && Unsized(r)
              case Rtf(s) => Carries(codec, r, RtfFormat, s, s) && Unsized(r)
              case Html(s) => Carries(codec, r, HtmlFormat, s, s) && Unsized(r)
              case Image(Rgba(w, h, pixels)) =>
                && Carries(codec, r, RgbaFormat, pixels, pixels)
                && (w < TWO31 ==> r.width == w) && (h < TWO31 ==> r.height == h) && r.specialName == ""
              case Image(Png(file)) => r == Record(false, file, 0, 0, PngFormat, "")
              case Image(Svg(s)) => Carries(codec, r, SvgFormat, s, s) && Unsized(r)
              case Special(name, data) =>
                && Carries(codec, r, SpecialFormat, data, EncodeUtf8(name))
                && r.width == 0 && r.height == 0 && r.specialName == name
              case Other => false
  {
  }

  /** What any record gives, whoever sent it: malformed text is dropped, a malformed SVG image
      arrives empty, an unknown format gives nothing. */
  lemma ItemOfRecord(codec: Codec, r: Record)
    ensures var data := if r.compressed then codec.decompress(r.content) else r.content;
            match FromProto(codec, r)
            case None => r.format == Unknown || (r.format in {TextFormat, RtfFormat, HtmlFormat} && !Utf8(data))
            case Some(Text(s)) => r.format == TextFormat && s == data
            case Some(Rtf(s)) => r.format == RtfFormat && s == data
            case Some(Html(s)) => r.format == HtmlFormat && s == data
            case Some(Image(Rgba(w, h, pixels))) =>
              && r.format == RgbaFormat && pixels == data
              && (0 <= r.width ==> w == r.width) && (0 <= r.height ==> h == r.height)
            case Some(Image(Png(file))) => r.format == PngFormat && file == data
            case Some(Image(Svg(s))) => r.format == SvgFormat && s == if Utf8(data) then data else []
            case Some(Special(name, bytes)) => r.format == SpecialFormat && name == r.specialName && bytes == data
            case Some(Other) => false
  {
  }

  lemma ItemRoundTrip(codec: Codec, item: Item)
    ensures (ToProto(codec, item).Some? && FromProto(codec, ToProto(codec, item).value) == Some(item))
       <==> Survives(codec, item)
  {
    if item.Image? && item.picture.Rgba? {
      CastRoundTrip(item.picture.width);
      CastRoundTrip(item.picture.height);
    }
  }

  /** What arrives for an item under a lossless compressor. */
  function Arrival(codec: Codec, item: Item): Item {
    match item
    case Image(Rgba(w, h, pixels)) => Image(Rgba(ToUsize(ToInt32(w)), ToUsize(ToInt32(h)), pixels))
    case Special(name, data) => Special(name, if |codec.compress(data)| < |data| then data else EncodeUtf8(name))
    case _ => item
  }

  function Arrivals(codec: Codec, items: seq<Item>): (r: seq<Item>)
    ensures forall x <- r :: !x.Other?
  {
    if items == [] then []
    else (if items[0].Other? then [] else [Arrival(codec, items[0])]) + Arrivals(codec, items[1..])
  }

  function Known(items: seq<Item>): seq<Item> {
    if items == [] then [] else (if items[0].Other? then [] else [items[0]]) + Known(items[1..])
  }

  /** Decoding an encoded list gives, in order, each known item's arrival. */
  lemma {:induction false} ListRoundTrip(codec: Codec, items: seq<Item>)
    requires codec.Lossless()
    ensures FromMultiClipboards(codec, CreateMultiClipboards(codec, items)) == Arrivals(codec, items)
  {
    if items != [] {
      ListRoundTrip(codec, items[1..]);
      if !items[0].Other? {
        ItemArrives(codec, items[0]);
        FromMultiCons(codec, ToProto(codec, items[0]).value, CreateMultiClipboards(codec, items[1..]));
      }
    }
  }

  lemma ItemArrives(codec: Codec, item: Item)
    requires codec.Lossless() && !item.Other?
    ensures ToProto(codec, item).Some?
    ensures FromProto(codec, ToProto(codec, item).value) == Some(Arrival(codec, item))
  {
    match item
    case Text(s) => PackedUnpacks(codec, s, TextFormat);
    case Rtf(s) => PackedUnpacks(codec, s, RtfFormat);
    case Html(s) => PackedUnpacks(codec, s, HtmlFormat);
    case Image(Rgba(_, _, pixels)) => PackedUnpacks(codec, pixels, RgbaFormat);
    case Image(Png(_)) =>
    case Image(Svg(s)) => PackedUnpacks(codec, s, SvgFormat);
    case Special(_, _) =>
  }

  lemma PackedUnpacks(codec: Codec, d: Bytes, format: Format)
    requires codec.Lossless()
    ensures var r := Packed(codec, d, format);
            (if r.compressed then codec.decompress(r.content) else r.content) == d && r.format == format
  {
  }

  lemma {:induction false} FromMultiCons(codec: Codec, r: Record, rest: seq<Record>)
    requires FromProto(codec, r).Some?
    ensures FromMultiClipboards(codec, [r] + rest) == [FromProto(codec, r).value] + FromMultiClipboards(codec, rest)
  {
    assert ([r] + rest)[1..] == rest;
  }

  /** The list comes back unchanged exactly when each of its known items does: text and
      images of representable size always, a special item when compression shortened it or
      its data are its name. */
  lemma {:induction false} ListUnchanged(codec: Codec, items: seq<Item>)
    requires codec.Lossless()
    ensures FromMultiClipboards(codec, CreateMultiClipboards(codec, items)) == Known(items)
       <==> forall item <- items :: item.Other? || Survives(codec, item)
  {
    ListRoundTrip(codec, items);
    ArrivalsUnchanged(codec, items);
  }

  lemma {:induction false} ArrivalsUnchanged(codec: Codec, items: seq<Item>)
    requires codec.Lossless()
    ensures Arrivals(codec, items) == Known(items)
       <==> forall item <- items :: item.Other? || Survives(codec, item)
  {
    if items != [] {
      var x, rest := items[0], items[1..];
      ArrivalsUnchanged(codec, rest);
      assert (forall item <- items :: item.Other? || Survives(codec, item))
        <==> (x.Other? || Survives(codec, x)) && forall item <- rest :: item.Other? || Survives(codec, item) by {
        assert forall item <- items :: item == x || item in rest;
      }
      if !x.Other? {
        ArrivalSurvives(codec, x);
        ConsEqual(Arrival(codec, x), Arrivals(codec, rest), x, Known(rest));
      } else {
        assert [] + Arrivals(codec, rest) == Arrivals(codec, rest);
        assert [] + Known(rest) == Known(rest);
      }
    }
  }

  lemma {:induction false} ConsEqual(x: Item, xs: seq<Item>, y: Item, ys: seq<Item>)
    ensures [x] + xs == [y] + ys <==> x == y && xs == ys
  {
    var a, b := [x] + xs, [y] + ys;
    assert a[0] == x && a[1..] == xs && b[0] == y && b[1..] == ys;
  }

  lemma {:induction false} ArrivalSurvives(codec: Codec, x: Item)
    requires codec.Lossless() && !x.Other?
    ensures Arrival(codec, x) == x <==> Survives(codec, x)
  {
    if x.Image? && x.picture.Rgba? {
      CastRoundTrip(x.picture.width);
      CastRoundTrip(x.picture.height);
    }
  }
}

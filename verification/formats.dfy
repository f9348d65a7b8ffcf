/** One stream descriptor as the extraction tool reports it, and the single
    display entry (`format_id`, `ext`, `label`) the `/formats` route derives
    from it, or the decision to skip it. This is the per-item part of the
    loop in `get_formats`; dropping repeated labels and sorting live in
    `Normalizer`. */
module Formats {
  import opened Wrappers
  import Text

  /** One key of a descriptor's JSON object: absent, present as `null`, or
      present, carried as the text Python's `str()` gives for its value
      (a string as itself, a number as its decimal rendering). */
  datatype Attr = Missing | Null | Present(text: string)

  /** A stream descriptor. Byte counts are `None` when absent or `null`. */
  datatype Descriptor = Descriptor(
    formatId: Attr,
    ext: Attr,
    vcodec: Attr,
    acodec: Attr,
    height: Attr,
    abr: Attr,
    filesize: Option<int>,
    filesizeApprox: Option<int>)

  /** One entry of the `formats` list (`caption` is its `label` field);
      `ext` is `None` when the descriptor carried `"ext": null`. */
  datatype FormatOption = FormatOption(formatId: string, ext: Option<string>, caption: string)

  /** The pair entries are deduplicated on: `(label, ext)`. */
  type LabelKey = (string, Option<string>)

  function KeyOf(o: FormatOption): LabelKey
  {
    (o.caption, o.ext)
  }

  /** The sort key: the first run of digits in the label, 0 if none. */
  function SortKey(o: FormatOption): int
  {
    Text.FirstNumber(o.caption)
  }

  // ---- Reading a descriptor the way `dict.get` does ----------------------

  /** `f.get(key, default)`: `None` stands for Python's `None`. */
  function Get(a: Attr, default: string): Option<string>
  {
    match a
    case Missing => Some(default)
    case Null => None
    case Present(t) => Some(t)
  }

  /** `f"{f.get(key, default)}"`. */
  function Render(a: Attr, default: string): string
  {
    match a
    case Missing => default
    case Null => "None"
    case Present(t) => t
  }

  /** The extension, defaulting to `mp4`. */
  function ExtOf(d: Descriptor): Option<string>
  {
    Get(d.ext, "mp4")
  }

  /** A codec counts as present unless it is `'none'` (absent means `'none'`). */
  predicate HasCodec(a: Attr)
  {
    Get(a, "none") != Some("none")
  }

  /** Python truthiness of a byte count. */
  predicate Truthy(n: Option<int>)
  {
    n.Some? && n.value != 0
  }

  /** `f.get('filesize') or f.get('filesize_approx')`. */
  function SizeBytes(d: Descriptor): (r: Option<int>)
    ensures Truthy(r) <==> Truthy(d.filesize) || Truthy(d.filesizeApprox)
    ensures Truthy(d.filesize) ==> r == d.filesize
    ensures !Truthy(d.filesize) ==> r == d.filesizeApprox
  {
    if Truthy(d.filesize) then d.filesize else d.filesizeApprox
  }

  // ---- Rendering the size: `f"{size_bytes / (1024 * 1024):.1f} MB"` -----

  const MiB: nat := 1048576

  function Abs(x: int): nat
  {
    if x < 0 then -x else x
  }

  /** `bytes / MiB` to one decimal place, as a count of tenths: the nearest
      multiple of a tenth, ties going to the even count, which is what
      `:.1f` does to the exact quotient. */
  function RoundedTenths(bytes: nat): (t: nat)
    ensures 2 * Abs(10 * bytes - t * MiB) <= MiB
    ensures 2 * Abs(10 * bytes - t * MiB) == MiB ==> t % 2 == 0
  {
    var q := 10 * bytes / MiB;
    var r := 10 * bytes % MiB;
    assert 10 * bytes == q * MiB + r;
    if 2 * r > MiB || (2 * r == MiB && q % 2 == 1) then q + 1 else q
  }

  /** `u` is `<whole>.<tenth> MB` with no leading zero in the whole part,
      and its digits, read without the point, are the count of tenths `t`. */
  ghost predicate ReadsAsTenths(u: string, t: nat)
  {
    && |u| >= 6
    && u[|u| - 3..] == " MB"
    && u[|u| - 5] == '.'
    && Text.AllDigits(u[..|u| - 5]) && Text.IsDigit(u[|u| - 4])
    && (u[0] != '0' || |u| == 6)
    && Text.DecimalValue(u[..|u| - 5] + [u[|u| - 4]]) == t
  }

  /** The size text, e.g. `50.0 MB`; a negative count keeps its sign. */
  function SizeText(bytes: int): (s: string)
    ensures |s| >= 6 && s[|s| - 3..] == " MB"
  {
    var t := RoundedTenths(Abs(bytes));
    (if bytes < 0 then "-" else "") + Text.NatToDecimal(t / 10) + "." + [Text.DigitChar(t % 10)] + " MB"
  }

  /** The size text reads back as the rounded size: a `-` exactly when the
      count is negative, then `<whole>.<tenth> MB` whose digits, without the
      point, are `RoundedTenths` of the magnitude. */
  lemma SizeTextReadsAsTenths(bytes: int)
    ensures var s := SizeText(bytes);
            && (s[0] == '-' <==> bytes < 0)
            && ReadsAsTenths(if bytes < 0 then s[1..] else s, RoundedTenths(Abs(bytes)))
  {
    var t := RoundedTenths(Abs(bytes));
    var whole := Text.NatToDecimal(t / 10);
    var c := Text.DigitChar(t % 10);
    var u := whole + "." + [c] + " MB";
    assert u[..|u| - 5] == whole && u[|u| - 5] == '.' && u[|u| - 4] == c;
    assert u[|u| - 3..] == " MB";
    assert (whole + [c])[..|whole + [c]| - 1] == whole;
    assert Text.DecimalValue(whole + [c]) == 10 * (t / 10) + t % 10;
    assert u[..|u| - 5] + [u[|u| - 4]] == whole + [c];
    assert ReadsAsTenths(u, t);
    var s := (if bytes < 0 then "-" else "") + u;
    assert s == SizeText(bytes);
    assert (if bytes < 0 then s[1..] else s) == u;
  }

  /** 50 MiB renders as `50.0 MB`; exactly 1.25 MiB is a tie and renders as
      `1.2 MB`, the even neighbour. */
  lemma SizeTextExamples()
    ensures SizeText(50 * MiB) == "50.0 MB"
    ensures SizeText(1310720) == "1.2 MB"
  {
    assert RoundedTenths(50 * MiB) == 500;
    assert Text.NatToDecimal(5) == "5";
    assert Text.NatToDecimal(50) == "50";
    assert RoundedTenths(1310720) == 12;
    assert Text.NatToDecimal(1) == "1";
  }

  // ---- One descriptor -----------------------------------------------------

  /** The three kinds of stream the route distinguishes. */
  datatype Kind = Combined | VideoOnly | AudioOnly

  function KindOf(d: Descriptor): Option<Kind>
  {
    if HasCodec(d.vcodec) && HasCodec(d.acodec) then Some(Combined)
    else if HasCodec(d.vcodec) then Some(VideoOnly)
    else if HasCodec(d.acodec) then Some(AudioOnly)
    else None
  }

  /** What follows the height or bitrate in each kind of label. */
  const CombinedTag := "p (video + audio) - "
  const VideoTag := "p - "
  const AudioTag := "kbps (audio only) - "

  /** The label f-strings: height (or bitrate), tag, size text. */
  function Label(d: Descriptor, k: Kind, size: string): string
  {
    match k
    case Combined => Render(d.height, "unknown") + (CombinedTag + size)
    case VideoOnly => Render(d.height, "unknown") + (VideoTag + size)
    case AudioOnly => Render(d.abr, "unknown") + (AudioTag + size)
  }

  /** The four conditions a descriptor must meet to be listed. */
  predicate Listable(d: Descriptor)
  {
    && d.formatId.Present? && d.formatId.text != ""
    && ExtOf(d) != Some("webm")
    && (Truthy(d.filesize) || Truthy(d.filesizeApprox))
    && (HasCodec(d.vcodec) || HasCodec(d.acodec))
  }

  /** The entry one descriptor contributes before deduplication, or `None`
      when the loop `continue`s past it. */
  function Entry(d: Descriptor): (r: Option<FormatOption>)
    ensures r.Some? <==> Listable(d)
    ensures r.Some? ==> r.value.formatId == d.formatId.text && r.value.ext == ExtOf(d)
  {
    if !(d.formatId.Present? && d.formatId.text != "") then None
    else
      var ext := ExtOf(d);
      if ext == Some("webm") then None
      else
        var size := SizeBytes(d);
        if !Truthy(size) then None
        else
          match KindOf(d)
          case None => None
          case Some(k) => Some(FormatOption(d.formatId.text, ext, Label(d, k, SizeText(size.value))))
  }

  /** The label of a listed descriptor, by which codecs it has: height and
      `p (video + audio) - ` for both, height and `p - ` for video only,
      bitrate and `kbps (audio only) - ` for audio only, each followed by
      the size text; a missing height or bitrate shows as `unknown`. */
  lemma EntryCaption(d: Descriptor)
    requires Listable(d)
    ensures var size := SizeText(SizeBytes(d).value);
            var caption := Entry(d).value.caption;
            && (HasCodec(d.vcodec) && HasCodec(d.acodec) ==>
                  caption == Render(d.height, "unknown") + (CombinedTag + size))
            && (HasCodec(d.vcodec) && !HasCodec(d.acodec) ==>
                  caption == Render(d.height, "unknown") + (VideoTag + size))
            && (!HasCodec(d.vcodec) ==>
                  caption == Render(d.abr, "unknown") + (AudioTag + size))
  {
  }

  /** A 1080p stream with both codecs and 50 MiB is listed as
      `1080p (video + audio) - 50.0 MB`. */
  lemma EntryExamples()
    ensures Entry(Descriptor(Present("37"), Present("mp4"), Present("avc1"), Present("mp4a"),
                             Present("1080"), Missing, Some(50 * MiB), None))
            == Some(FormatOption("37", Some("mp4"), "1080" + (CombinedTag + "50.0 MB")))
  {
    var d := Descriptor(Present("37"), Present("mp4"), Present("avc1"), Present("mp4a"),
                        Present("1080"), Missing, Some(50 * MiB), None);
    SizeTextExamples();
    assert HasCodec(d.vcodec) && HasCodec(d.acodec);
    assert Listable(d);
    assert SizeBytes(d) == Some(50 * MiB);
  }

  /** Every `webm` stream is skipped, whatever else it carries. */
  lemma WebmSkipped(d: Descriptor)
    requires d.ext == Present("webm")
    ensures Entry(d).None?
  {
  }
}

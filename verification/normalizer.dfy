/** The format list the `/formats` route returns: every descriptor passed
    through `Formats.Entry`, entries whose `(label, ext)` pair was already
    seen dropped (the first one in input order stays), then a stable sort on
    the first number in the label, largest first. */
module Normalizer {
  import opened Wrappers
  import opened Formats
  import Text
  import StableSort
  import Dedup

  /** The format list: `Collect` from an empty `seen_labels`, then the sort. */
  function Normalize(ds: seq<Descriptor>): (r: seq<FormatOption>)
    ensures |r| <= |ds|
    ensures StableSort.SortedDesc(r, SortKey)
    ensures multiset(r) == multiset(Dedup.Collect(Entry, KeyOf, ds, {}))
  {
    var c := Dedup.Collect(Entry, KeyOf, ds, {});
    var r := StableSort.SortDesc(c, SortKey);
    assert |r| == |multiset(r)| == |multiset(c)| == |c|;
    r
  }

  // ---- What the route returns -------------------------------------------

  /** Every listed entry is, field for field, the entry of the first
      descriptor listed under its `(label, ext)` pair: `format_id`, `ext` and
      `label` come unchanged from that descriptor, which passed every filter. */
  lemma NormalizeEntriesFromFirstDescriptor(ds: seq<Descriptor>)
    ensures forall p :: 0 <= p < |Normalize(ds)| ==>
              var o := Normalize(ds)[p];
              Dedup.Produces(Entry, KeyOf, ds, KeyOf(o)) && Entry(ds[Dedup.Origin(Entry, KeyOf, ds, KeyOf(o))]) == Some(o)
  {
    var c := Dedup.Collect(Entry, KeyOf, ds, {});
    var out := Normalize(ds);
    Dedup.CollectOrigins(Entry, KeyOf, ds, {});
    forall p | 0 <= p < |out|
      ensures Dedup.Produces(Entry, KeyOf, ds, KeyOf(out[p])) && Entry(ds[Dedup.Origin(Entry, KeyOf, ds, KeyOf(out[p]))]) == Some(out[p])
    {
      assert out[p] in multiset(out);
      assert out[p] in multiset(c);
      var i :| 0 <= i < |c| && c[i] == out[p];
    }
  }

  /** Entries sharing a sort key keep the order of their first descriptors
      in the input: the sort is stable. */
  lemma NormalizeStable(ds: seq<Descriptor>)
    ensures forall p, q :: 0 <= p < q < |Normalize(ds)| && SortKey(Normalize(ds)[p]) == SortKey(Normalize(ds)[q]) ==>
              var out := Normalize(ds);
              Dedup.Produces(Entry, KeyOf, ds, KeyOf(out[p])) && Dedup.Produces(Entry, KeyOf, ds, KeyOf(out[q])) &&
              Dedup.Origin(Entry, KeyOf, ds, KeyOf(out[p])) < Dedup.Origin(Entry, KeyOf, ds, KeyOf(out[q]))
  {
    var c := Dedup.Collect(Entry, KeyOf, ds, {});
    var out := Normalize(ds);
    Dedup.CollectOrder(Entry, KeyOf, ds, {});
    forall p, q | 0 <= p < q < |out| && SortKey(out[p]) == SortKey(out[q])
      ensures Dedup.Produces(Entry, KeyOf, ds, KeyOf(out[p])) && Dedup.Produces(Entry, KeyOf, ds, KeyOf(out[q])) &&
              Dedup.Origin(Entry, KeyOf, ds, KeyOf(out[p])) < Dedup.Origin(Entry, KeyOf, ds, KeyOf(out[q]))
    {
      var i, j := StableSort.SortKeepsOrder(c, SortKey, p, q);
    }
  }

  /** The list is in non-increasing order of the first number in each label
      (0 for a label without digits). */
  lemma NormalizeSorted(ds: seq<Descriptor>)
    ensures forall p, q :: 0 <= p < q < |Normalize(ds)| ==>
              Text.FirstNumber(Normalize(ds)[p].caption) >= Text.FirstNumber(Normalize(ds)[q].caption)
  {
    var out := Normalize(ds);
    assert StableSort.SortedDesc(out, SortKey);
    forall p, q | 0 <= p < q < |out|
      ensures Text.FirstNumber(out[p].caption) >= Text.FirstNumber(out[q].caption)
    {
      assert SortKey(out[p]) >= SortKey(out[q]);
    }
  }

  /** No two listed entries share a `(label, ext)` pair. */
  lemma NormalizeNoDuplicates(ds: seq<Descriptor>)
    ensures forall p, q :: 0 <= p < q < |Normalize(ds)| ==> KeyOf(Normalize(ds)[p]) != KeyOf(Normalize(ds)[q])
  {
    var out := Normalize(ds);
    NormalizeStable(ds);
    forall p, q | 0 <= p < q < |out| ensures KeyOf(out[p]) != KeyOf(out[q]) {
      var a, b := out[p], out[q];
      assert KeyOf(a) == KeyOf(b) ==> SortKey(a) == SortKey(b);
    }
  }

  /** Every descriptor that passes the filters is represented: its pair is
      the pair of some listed entry. */
  lemma NormalizeComplete(ds: seq<Descriptor>, i: nat) returns (p: nat)
    requires i < |ds| && Entry(ds[i]).Some?
    ensures p < |Normalize(ds)| && KeyOf(Normalize(ds)[p]) == KeyOf(Entry(ds[i]).value)
  {
    var k := KeyOf(Entry(ds[i]).value);
    var c := Dedup.Collect(Entry, KeyOf, ds, {});
    var out := Normalize(ds);
    Dedup.ProducesIff(Entry, KeyOf, ds, k);
    var pc := Dedup.CollectComplete(Entry, KeyOf, ds, {}, k);
    assert c[pc] in multiset(c);
    assert c[pc] in multiset(out);
    p :| 0 <= p < |out| && out[p] == c[pc];
  }

  /** The list is a rearrangement of the deduplicated list. */
  lemma NormalizePermutes(ds: seq<Descriptor>)
    ensures multiset(Normalize(ds)) == multiset(Dedup.Collect(Entry, KeyOf, ds, {}))
  {
  }

  // ---- The loop as the route runs it --------------------------------------

  /** The `for f in ...` loop of `get_formats`: one pass over the
      descriptors with a `seen_labels` set. */
  method CollectFormats(ds: seq<Descriptor>) returns (formats: seq<FormatOption>)
    ensures formats == Dedup.Collect(Entry, KeyOf, ds, {})
  {
    formats := [];
    var seenLabels: set<LabelKey> := {};
    var i := 0;
    while i < |ds|
      invariant i <= |ds|
      invariant formats + Dedup.Collect(Entry, KeyOf, ds[i..], seenLabels) == Dedup.Collect(Entry, KeyOf, ds, {})
    {
      Dedup.CollectAt(Entry, KeyOf, ds, i, seenLabels);
      var entry := Entry(ds[i]);
      if entry.Some? && KeyOf(entry.value) !in seenLabels {
        var labelKey := KeyOf(entry.value);
        var rest := Dedup.Collect(Entry, KeyOf, ds[i + 1..], seenLabels + {labelKey});
        assert formats + ([entry.value] + rest) == (formats + [entry.value]) + rest;
        seenLabels := seenLabels + {labelKey};
        formats := formats + [entry.value];
      }
      i := i + 1;
    }
    assert ds[i..] == [];
  }

  /** `get_formats` between the extraction call and `jsonify`. */
  method GetFormats(ds: seq<Descriptor>) returns (formats: seq<FormatOption>)
    ensures formats == Normalize(ds)
  {
    formats := CollectFormats(ds);
    formats := StableSort.SortDesc(formats, SortKey);
  }

  // ---- The sort key on labels the route builds ------------------------------

  /** A video label keys on its height when the height is a number. */
  lemma HeightKeysVideo(d: Descriptor, k: Kind, size: string, h: string)
    requires k != AudioOnly
    requires d.height == Present(h) && Text.AllDigits(h) && |h| > 0
    ensures Text.FirstNumber(Label(d, k, size)) == Text.DecimalValue(h)
  {
    var tag := if k == Combined then CombinedTag else VideoTag;
    var post := tag + size;
    var shown := Label(d, k, size);
    assert shown == h + post;
    assert post[0] == 'p';
    Text.FirstNumberOfLeadingRun(shown, h, post);
  }

  /** An audio-only label keys on the whole part of its bitrate: `129.5`
      keys as 129. */
  lemma BitrateKeysAudio(d: Descriptor, size: string, whole: string, fraction: string)
    requires d.abr == Present(whole + fraction)
    requires Text.AllDigits(whole) && |whole| > 0
    requires |fraction| == 0 || !Text.IsDigit(fraction[0])
    ensures Text.FirstNumber(Label(d, AudioOnly, size)) == Text.DecimalValue(whole)
  {
    var rest := AudioTag + size;
    var post := fraction + rest;
    Text.AppendAssoc(whole, fraction, rest);
    assert rest[0] == 'k';
    assert post[0] == if |fraction| == 0 then rest[0] else fraction[0];
    var shown := Label(d, AudioOnly, size);
    assert shown == whole + post;
    Text.FirstNumberOfLeadingRun(shown, whole, post);
  }

  /** The whole-MB part of a size text is the rounded size divided by ten. */
  lemma SizeTextWholePart(bytes: nat)
    ensures var u := SizeText(bytes);
            Text.AllDigits(u[..|u| - 5]) && |u[..|u| - 5]| > 0 &&
            Text.DecimalValue(u[..|u| - 5]) == RoundedTenths(bytes) / 10
  {
    var u := SizeText(bytes);
    SizeTextReadsAsTenths(bytes);
    var whole := u[..|u| - 5];
    var digits := whole + [u[|u| - 4]];
    assert digits[..|digits| - 1] == whole;
    assert Text.DecimalValue(digits) == 10 * Text.DecimalValue(whole) + Text.DigitValue(u[|u| - 4]);
  }

  /** A video label with no height keys on its size: `unknownp - 50.0 MB`
      keys as 50, the whole number of MiB after rounding. */
  lemma UnknownHeightKeysOnSize(d: Descriptor, k: Kind, bytes: nat)
    requires k != AudioOnly && d.height == Missing
    ensures Text.FirstNumber(Label(d, k, SizeText(bytes))) == RoundedTenths(bytes) / 10
  {
    var u := SizeText(bytes);
    SizeTextWholePart(bytes);
    var whole := u[..|u| - 5];
    var post := u[|u| - 5..];
    assert u == whole + post;
    assert post[0] == '.';
    var tag := if k == Combined then CombinedTag else VideoTag;
    var pre := "unknown" + tag;
    assert Text.NoDigits(pre);
    Text.AppendAssoc(tag, whole, post);
    Text.AppendAssoc("unknown", tag + whole, post);
    Text.AppendAssoc("unknown", tag, whole);
    Text.FirstNumberOfParts(Label(d, k, u), pre, whole, post);
  }

  /** Audio-only entries are not placed after video entries: an audio
      stream whose bitrate exceeds a video stream's height sorts first. */
  lemma AudioCanPrecedeVideo(dv: Descriptor, da: Descriptor, h: string, whole: string, fraction: string)
    requires Entry(dv).Some? && HasCodec(dv.vcodec)
    requires Entry(da).Some? && !HasCodec(da.vcodec)
    requires dv.height == Present(h) && Text.AllDigits(h) && |h| > 0
    requires da.abr == Present(whole + fraction) && Text.AllDigits(whole) && |whole| > 0
    requires |fraction| == 0 || !Text.IsDigit(fraction[0])
    requires Text.DecimalValue(whole) > Text.DecimalValue(h)
    ensures var video, audio := Entry(dv).value, Entry(da).value;
            StableSort.SortDesc([video, audio], SortKey) == [audio, video]
  {
    var video, audio := Entry(dv).value, Entry(da).value;
    var kv := if HasCodec(dv.acodec) then Combined else VideoOnly;
    EntryCaption(dv);
    EntryCaption(da);
    assert video.caption == Label(dv, kv, SizeText(SizeBytes(dv).value));
    assert audio.caption == Label(da, AudioOnly, SizeText(SizeBytes(da).value));
    HeightKeysVideo(dv, kv, SizeText(SizeBytes(dv).value), h);
    BitrateKeysAudio(da, SizeText(SizeBytes(da).value), whole, fraction);
    SortTwo(video, audio);
  }

  /** Two entries come out larger key first. */
  lemma SortTwo(x: FormatOption, y: FormatOption)
    requires SortKey(y) > SortKey(x)
    ensures StableSort.SortDesc([x, y], SortKey) == [y, x]
  {
    assert [x, y][1..] == [y];
    assert [y][1..] == [];
    assert StableSort.SortDesc([y], SortKey) == [y];
    assert StableSort.Insert(x, [y], SortKey) == [y, x];
  }
}

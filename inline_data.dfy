/**
 * `UploadController.SaveBase64ToFile` up to the decoding step: the data URI
 * is split on `;`, every segment is classified, the last payload segment and
 * the last `data:` segment win, and an unsupported media type throws from
 * inside the loop.
 */
module InlineData {
  import opened Wrappers
  import opened Strings
  import Mime

  /** The prefix that marks the payload segment, compared ignoring case. */
  const PayloadPrefix: string := "base64,"

  /** The field name that marks the media-type segment, compared ignoring case. */
  const DataField: string := "data"

  /** What one `;`-segment contributes to the parse. */
  datatype Segment =
    | PayloadSegment(payload: string)
    | MediaSegment(mimeType: string)
    | Ignored

  /**
   * The body of the `foreach`: a segment without `:` that starts with
   * `base64,` carries the payload (the prefix dropped, spaces turned back into
   * `+`); a segment whose first `:`-field is `data` carries the media type, its
   * second `:`-field; every other segment is skipped.
   */
  function Classify(s: string): (seg: Segment)
    ensures seg.PayloadSegment? ==> ':' !in s && |seg.payload| == |s| - |PayloadPrefix| && ' ' !in seg.payload
    ensures seg.MediaSegment? ==> ':' in s && ':' !in seg.mimeType
  {
    if IndexOf(s, ':') == -1 then
      if StartsWithIgnoreCase(s, PayloadPrefix) then PayloadSegment(Replace(s[|PayloadPrefix|..], ' ', '+'))
      else Ignored
    else
      var header := Split(s, ':');
      if EqualsIgnoreCase(DataField, header[0]) then MediaSegment(header[1]) else Ignored
  }

  /** The second `:`-field is the text after the first `:`, up to the next `:` or the end. */
  lemma MediaTypeField(s: string)
    requires Classify(s).MediaSegment?
    ensures var rest := s[IndexOf(s, ':') + 1..];
      Classify(s).mimeType == if ':' in rest then rest[..IndexOf(rest, ':')] else rest
  {
    var k := IndexOf(s, ':');
    var rest := s[k + 1..];
    assert s == s[..k] + [':'] + rest;
    SplitAfterPiece(s[..k], rest, ':');
    if ':' in rest {
      SplitFirstPiece(rest, ':');
    } else {
      SplitWithoutSeparator(rest, ':');
    }
  }

  /** The payload is the segment after its 7-character prefix, with every space replaced by `+`. */
  lemma PayloadText(s: string)
    requires Classify(s).PayloadSegment?
    ensures var p := Classify(s).payload;
      forall i :: 0 <= i < |p| ==> p[i] == if s[i + 7] == ' ' then '+' else s[i + 7]
  {
  }

  /** Every segment of `data`, classified. */
  function ClassifyAll(parts: seq<string>): (segs: seq<Segment>)
    ensures |segs| == |parts|
    ensures forall i :: 0 <= i < |parts| ==> segs[i] == Classify(parts[i])
  {
    if |parts| == 0 then [] else [Classify(parts[0])] + ClassifyAll(parts[1..])
  }

  /** A `data:` segment whose media type the extension table does not know, so that the lookup throws. */
  predicate Unsupported(seg: Segment)
  {
    seg.MediaSegment? && Mime.GetExtension(seg.mimeType).Failure?
  }

  /** The kinds of segment a later one of the same kind overrides. */
  datatype Kind = Payload | Media

  predicate IsKind(seg: Segment, k: Kind)
  {
    if k == Payload then seg.PayloadSegment? else seg.MediaSegment?
  }

  /** The position of the last segment of kind `k` among the first `n`, or -1 when there is none. */
  function LastOf(segs: seq<Segment>, k: Kind, n: nat): (r: int)
    requires n <= |segs|
    ensures -1 <= r < n
    ensures r >= 0 ==> IsKind(segs[r], k)
    ensures forall j :: r < j < n ==> !IsKind(segs[j], k)
  {
    if n == 0 then -1
    else if IsKind(segs[n - 1], k) then n - 1
    else LastOf(segs, k, n - 1)
  }

  /** The three properties of `LastOf` determine it. */
  lemma LastOfUnique(segs: seq<Segment>, k: Kind, n: nat, r: int)
    requires n <= |segs| && -1 <= r < n && (r >= 0 ==> IsKind(segs[r], k))
    requires forall j :: r < j < n ==> !IsKind(segs[j], k)
    ensures LastOf(segs, k, n) == r
  {
  }

  /** The three variables the loop of `SaveBase64ToFile` keeps; `None` is `null`. */
  datatype LoopState = LoopState(base64Data: Option<string>, mimeType: Option<string>, extension: Option<string>)

  /** The loop's variables after the first `n` segments, or the exception it threw. */
  function Scan(segs: seq<Segment>, n: nat): (r: Result<LoopState>)
    requires n <= |segs|
    ensures r.Failure? ==> r.error == InvalidOperation
    ensures r.Success? ==> (r.value.extension.Some? <==> r.value.mimeType.Some?)
  {
    if n == 0 then Success(LoopState(None, None, None))
    else
      var before := Scan(segs, n - 1);
      if before.Failure? then before
      else match segs[n - 1]
        case Ignored => before
        case PayloadSegment(payload) => Success(before.value.(base64Data := Some(payload)))
        case MediaSegment(mimeType) =>
          var ext := Mime.GetExtension(mimeType);
          if ext.Failure? then Failure(ext.error)
          else Success(before.value.(mimeType := Some(mimeType), extension := Some(ext.value)))
  }

  /** Once the loop has thrown, later segments do not matter. */
  lemma {:induction false} ScanFailureSticks(segs: seq<Segment>, i: nat, n: nat)
    requires i <= n <= |segs| && Scan(segs, i).Failure?
    ensures Scan(segs, n) == Scan(segs, i)
    decreases n
  {
    if n > i {
      ScanFailureSticks(segs, i, n - 1);
    }
  }

  /**
   * The same state stated over the first `n` segments at once: any unsupported
   * `data:` segment throws; otherwise the payload comes from the last payload
   * segment and the media type and its extension from the last `data:` segment.
   */
  function LastWins(segs: seq<Segment>, n: nat): (r: Result<LoopState>)
    requires n <= |segs|
    ensures r.Failure? <==> exists j :: 0 <= j < n && Unsupported(segs[j])
    ensures r.Success? ==> (r.value.base64Data.None? <==> forall j :: 0 <= j < n ==> !segs[j].PayloadSegment?)
    ensures r.Success? ==> (r.value.mimeType.None? <==> forall j :: 0 <= j < n ==> !segs[j].MediaSegment?)
    ensures r.Success? && r.value.base64Data.Some? ==> exists j :: 0 <= j < n && segs[j] == PayloadSegment(r.value.base64Data.value)
    ensures r.Success? && r.value.mimeType.Some? ==> exists j :: 0 <= j < n && segs[j] == MediaSegment(r.value.mimeType.value)
  {
    if exists j :: 0 <= j < n && Unsupported(segs[j]) then Failure(InvalidOperation)
    else
      var p, m := LastOf(segs, Payload, n), LastOf(segs, Media, n);
      Success(LoopState(
        if p < 0 then None else Some(segs[p].payload),
        if m < 0 then None else Some(segs[m].mimeType),
        if m < 0 then None else Some(Mime.GetExtension(segs[m].mimeType).value)))
  }

  /** The loop computes the last-one-wins state, and throws exactly when some `data:` segment is unsupported. */
  lemma {:induction false} ScanIsLastWins(segs: seq<Segment>, n: nat)
    requires n <= |segs|
    ensures Scan(segs, n) == LastWins(segs, n)
  {
    if n > 0 {
      ScanIsLastWins(segs, n - 1);
      if Unsupported(segs[n - 1]) {
        assert exists j :: 0 <= j < n && Unsupported(segs[j]);
      } else if exists j :: 0 <= j < n - 1 && Unsupported(segs[j]) {
        var j :| 0 <= j < n - 1 && Unsupported(segs[j]);
        assert 0 <= j < n && Unsupported(segs[j]);
      } else {
        assert !exists j :: 0 <= j < n && Unsupported(segs[j]);
      }
    }
  }

  /** What a successful parse yields, before the payload is decoded. */
  datatype Inline = Inline(payload: string, mimeType: string, extension: string)

  /** The `IsNullOrEmpty` check after the loop: the result is `null` exactly when the payload or the extension is null or empty. */
  function Finish(state: Result<LoopState>): (r: Result<Option<Inline>>)
    requires state.Success? && state.value.extension.Some? ==> state.value.mimeType.Some?
    ensures state.Failure? <==> r.Failure?
    ensures r.Success? && r.value.Some? ==> state.value.base64Data == Some(r.value.value.payload) && r.value.value.payload != ""
    ensures r.Success? && r.value.Some? ==> state.value.mimeType == Some(r.value.value.mimeType) && state.value.extension == Some(r.value.value.extension)
    ensures (&& state.Success?
             && state.value.base64Data.Some? && state.value.base64Data.value != ""
             && state.value.extension.Some? && state.value.extension.value != "")
            ==> r.Success? && r.value.Some?
  {
    if state.Failure? then Failure(state.error)
    else
      var st := state.value;
      if st.base64Data.None? || st.base64Data.value == "" || st.extension.None? || st.extension.value == "" then Success(None)
      else Success(Some(Inline(st.base64Data.value, st.mimeType.value, st.extension.value)))
  }

  /** The outcome of the segment loop for a whole segment list, in its last-one-wins form. */
  function ParseSegments(segs: seq<Segment>): (r: Result<Option<Inline>>)
    ensures r.Failure? <==> exists i :: 0 <= i < |segs| && Unsupported(segs[i])
    ensures r.Success? && r.value.Some? ==> exists i :: 0 <= i < |segs| && segs[i] == PayloadSegment(r.value.value.payload)
    ensures r.Success? && r.value.Some? ==> exists i :: 0 <= i < |segs| && segs[i] == MediaSegment(r.value.value.mimeType)
  {
    Finish(LastWins(segs, |segs|))
  }

  /**
   * The loop only ever throws `InvalidOperationException`, and the extension
   * it keeps is always the one the table gives for the media type it keeps.
   */
  lemma {:induction false} ScanKeepsExtension(segs: seq<Segment>, n: nat)
    requires n <= |segs|
    ensures Scan(segs, n).Success? && Scan(segs, n).value.extension.Some? ==>
      var st := Scan(segs, n).value;
      Mime.GetExtension(st.mimeType.value) == Success(st.extension.value)
  {
    if n > 0 {
      ScanKeepsExtension(segs, n - 1);
    }
  }

  /**
   * The parse of a whole data URI: its `;`-segments, classified and scanned.
   * It throws only `InvalidOperationException`, and what it finds has a
   * non-empty payload and the extension its media type maps to.
   */
  function Parse(data: string): (r: Result<Option<Inline>>)
    ensures r.Failure? ==> r.error == InvalidOperation
    ensures r.Success? && r.value.Some? ==> r.value.value.payload != ""
    ensures r.Success? && r.value.Some? ==> Mime.GetExtension(r.value.value.mimeType) == Success(r.value.value.extension)
  {
    var segs := ClassifyAll(Split(data, ';'));
    ScanKeepsExtension(segs, |segs|);
    Finish(Scan(segs, |segs|))
  }

  /** The loop's outcome equals the last-one-wins reading of the segments. */
  lemma ParseIsLastWins(data: string)
    ensures Parse(data) == ParseSegments(ClassifyAll(Split(data, ';')))
  {
    var segs := ClassifyAll(Split(data, ';'));
    ScanIsLastWins(segs, |segs|);
  }

  /** One turn of the loop, stated with the conditions the loop body itself checks. */
  lemma ScanStep(parts: seq<string>, i: nat, st: LoopState)
    requires i < |parts| && Scan(ClassifyAll(parts), i) == Success(st)
    ensures var s := parts[i];
      Scan(ClassifyAll(parts), i + 1) ==
        if IndexOf(s, ':') == -1 then
          if StartsWithIgnoreCase(s, PayloadPrefix) then Success(st.(base64Data := Some(Replace(s[|PayloadPrefix|..], ' ', '+'))))
          else Success(st)
        else if !EqualsIgnoreCase(DataField, Split(s, ':')[0]) then Success(st)
        else if Mime.GetExtension(Split(s, ':')[1]).Failure? then Failure(InvalidOperation)
        else Success(st.(mimeType := Some(Split(s, ':')[1]), extension := Some(Mime.GetExtension(Split(s, ':')[1]).value)))
  {
    assert ClassifyAll(parts)[i] == Classify(parts[i]);
  }

  /**
   * The `foreach` of `SaveBase64ToFile` and the `null` check after it. The loop
   * keeps the last payload, media type and extension seen so far, and the
   * extension lookup throws at the first unsupported `data:` segment.
   */
  method ParseInline(data: string) returns (r: Result<Option<Inline>>)
    ensures r == Parse(data)
  {
    var segments := Split(data, ';');
    ghost var segs := ClassifyAll(segments);
    var base64Data: Option<string> := None;
    var extension: Option<string> := None;
    var mimeType: Option<string> := None;
    for i := 0 to |segments|
      invariant Scan(segs, i) == Success(LoopState(base64Data, mimeType, extension))
      invariant extension.Some? ==> mimeType.Some?
    {
      var s := segments[i];
      ScanStep(segments, i, LoopState(base64Data, mimeType, extension));
      var colonIndex := IndexOf(s, ':');
      if colonIndex == -1 {
        if StartsWithIgnoreCase(s, PayloadPrefix) {
          base64Data := Some(Replace(s[|PayloadPrefix|..], ' ', '+'));
        }
        continue;
      }
      var header := Split(s, ':');
      if !EqualsIgnoreCase(DataField, header[0]) {
        continue;
      }
      mimeType := Some(header[1]);
      var ext := Mime.GetExtension(header[1]);
      if ext.Failure? {
        ScanFailureSticks(segs, i + 1, |segs|);
        return Failure(ext.error);
      }
      extension := Some(ext.value);
    }
    if base64Data == None || base64Data.value == "" || extension == None || extension.value == "" {
      return Success(None);
    }
    return Success(Some(Inline(base64Data.value, mimeType.value, extension.value)));
  }

  /**
   * When a segment is recognised, in both directions: it carries the payload
   * exactly when it has no `:` and starts with `base64,` in any letter case,
   * and the media type exactly when its text before the first `:` is `data`
   * in any letter case.
   */
  lemma ClassifyCases(s: string)
    ensures Classify(s).PayloadSegment? <==> ':' !in s && StartsWithIgnoreCase(s, PayloadPrefix)
    ensures Classify(s).MediaSegment? <==> ':' in s && EqualsIgnoreCase(DataField, s[..IndexOf(s, ':')])
  {
    if ':' in s {
      SplitFirstPiece(s, ':');
    }
  }

  /** The `data` field matches in any letter case: `DaTa:<type>` is recognised like `data:<type>`. */
  lemma ClassifyMixedCaseData(mimeType: string)
    requires ':' !in mimeType
    ensures Classify("DaTa:" + mimeType) == MediaSegment(mimeType)
  {
    var media := "DaTa:" + mimeType;
    assert media[4] == ':' && ':' !in media[..4];
    assert IndexOf(media, ':') == 4;
    assert media[..4] == "DaTa";
    assert EqualsIgnoreCase(DataField, "DaTa") by {
      assert FoldCase('D') == 'd' && FoldCase('T') == 't';
    }
    ClassifyCases(media);
    MediaTypeField(media);
    assert media[5..] == mimeType;
  }

  /** The `base64,` prefix matches in any letter case: `BASE64,<payload>` is recognised like `base64,<payload>`. */
  lemma ClassifyMixedCasePayload(payload: string)
    requires ':' !in payload
    ensures Classify("BASE64," + payload) == PayloadSegment(Replace(payload, ' ', '+'))
  {
    var pay := "BASE64," + payload;
    assert ':' !in pay by {
      forall i | 0 <= i < |pay| ensures pay[i] != ':' {
        if i >= 7 {
          assert pay[i] == payload[i - 7];
        }
      }
    }
    assert pay[..|PayloadPrefix|] == "BASE64,";
    assert EqualsIgnoreCase("BASE64,", PayloadPrefix) by {
      assert FoldCase('B') == 'b' && FoldCase('A') == 'a' && FoldCase('S') == 's' && FoldCase('E') == 'e';
    }
    assert pay[|PayloadPrefix|..] == payload;
  }

  /** `data:<type>` with a colon-free type is a media segment for that type. */
  lemma ClassifyDataField(mimeType: string)
    requires ':' !in mimeType
    ensures Classify("data:" + mimeType) == MediaSegment(mimeType)
  {
    var media := "data:" + mimeType;
    assert media == "data" + [':'] + mimeType;
    SplitAfterPiece("data", mimeType, ':');
    SplitWithoutSeparator(mimeType, ':');
    assert IndexOf(media, ':') == 4;
  }

  /** `base64,<payload>` with a colon-free payload is a payload segment. */
  lemma ClassifyPayloadField(payload: string)
    requires ':' !in payload
    ensures Classify("base64," + payload) == PayloadSegment(Replace(payload, ' ', '+'))
  {
    var pay := "base64," + payload;
    assert ':' !in pay by {
      forall i | 0 <= i < |pay| ensures pay[i] != ':' {
        if i >= 7 {
          assert pay[i] == payload[i - 7];
        }
      }
    }
    assert pay[..|PayloadPrefix|] == PayloadPrefix;
    assert pay[|PayloadPrefix|..] == payload;
  }

  /** The two segments of `data:<type>;base64,<payload>`, classified. */
  lemma CanonicalSegments(mimeType: string, payload: string)
    requires ';' !in mimeType && ':' !in mimeType && ';' !in payload && ':' !in payload
    ensures ClassifyAll(Split("data:" + mimeType + ";base64," + payload, ';')) ==
      [MediaSegment(mimeType), PayloadSegment(Replace(payload, ' ', '+'))]
  {
    var media, pay := "data:" + mimeType, "base64," + payload;
    assert "data:" + mimeType + ";base64," + payload == media + [';'] + pay;
    assert ';' !in media && ';' !in pay;
    SplitAfterPiece(media, pay, ';');
    SplitWithoutSeparator(pay, ';');
    ClassifyDataField(mimeType);
    ClassifyPayloadField(payload);
  }

  /** A `data:` segment followed by a payload segment. */
  lemma ScanMediaThenPayload(mimeType: string, payload: string)
    ensures Scan([MediaSegment(mimeType), PayloadSegment(payload)], 2) ==
      if Mime.GetExtension(mimeType).Failure? then Failure(InvalidOperation)
      else Success(LoopState(Some(payload), Some(mimeType), Some(Mime.GetExtension(mimeType).value)))
  {
    var segs := [MediaSegment(mimeType), PayloadSegment(payload)];
    assert Scan(segs, 1) == if Mime.GetExtension(mimeType).Failure? then Failure(InvalidOperation)
      else Success(LoopState(None, Some(mimeType), Some(Mime.GetExtension(mimeType).value)));
  }

  /**
   * A well-formed data URI `data:<type>;base64,<payload>` whose type and
   * payload hold neither `;` nor `:` (base64 text never does) parses to its
   * type and payload, throws when the type is unsupported, and gives `null`
   * when the payload is empty.
   */
  lemma CanonicalDataUri(mimeType: string, payload: string)
    requires ';' !in mimeType && ':' !in mimeType && ';' !in payload && ':' !in payload
    ensures Parse("data:" + mimeType + ";base64," + payload) ==
      if Mime.GetExtension(mimeType).Failure? then Failure(InvalidOperation)
      else if payload == "" then Success(None)
      else Success(Some(Inline(Replace(payload, ' ', '+'), mimeType, Mime.GetExtension(mimeType).value)))
  {
    CanonicalSegments(mimeType, payload);
    ScanMediaThenPayload(mimeType, Replace(payload, ' ', '+'));
  }

  /**
   * An unsupported `data:` segment makes the parse throw wherever it stands
   * and whatever the other segments are, so also when no payload exists.
   */
  lemma UnsupportedMediaThrows(before: seq<Segment>, seg: Segment, after: seq<Segment>)
    requires Unsupported(seg)
    ensures ParseSegments(before + [seg] + after) == Failure(InvalidOperation)
  {
    assert (before + [seg] + after)[|before|] == seg;
  }

  /**
   * A segment can be dropped without changing the outcome when the loop
   * ignores it, or when it is a payload or a supported `data:` segment that a
   * later segment of the same kind overrides.
   */
  lemma ShadowedSegmentIsIgnored(before: seq<Segment>, seg: Segment, after: seq<Segment>)
    requires seg.PayloadSegment? ==> exists j :: 0 <= j < |after| && after[j].PayloadSegment?
    requires seg.MediaSegment? ==> !Unsupported(seg) && exists j :: 0 <= j < |after| && after[j].MediaSegment?
    ensures ParseSegments(before + [seg] + after) == ParseSegments(before + after)
  {
    var long, short := before + [seg] + after, before + after;
    forall k: Kind
      ensures LastOf(long, k, |long|) == if LastOf(short, k, |short|) < |before| then LastOf(short, k, |short|) else LastOf(short, k, |short|) + 1
    {
      LastAfterRemoval(before, seg, after, k);
    }
    UnsupportedAfterRemoval(before, seg, after);
    var p, m := LastOf(short, Payload, |short|), LastOf(short, Media, |short|);
    if p >= 0 {
      assert long[if p < |before| then p else p + 1] == short[p];
    }
    if m >= 0 {
      assert long[if m < |before| then m else m + 1] == short[m];
    }
  }

  /** Removing a segment that is not itself unsupported keeps whether some segment is. */
  lemma UnsupportedAfterRemoval(before: seq<Segment>, seg: Segment, after: seq<Segment>)
    requires !Unsupported(seg)
    ensures var long, short := before + [seg] + after, before + after;
      (exists i :: 0 <= i < |long| && Unsupported(long[i])) <==> (exists i :: 0 <= i < |short| && Unsupported(short[i]))
  {
    var long, short := before + [seg] + after, before + after;
    if i :| 0 <= i < |long| && Unsupported(long[i]) {
      if i < |before| {
        assert short[i] == long[i];
      } else {
        assert short[i - 1] == long[i];
      }
    }
    if i :| 0 <= i < |short| && Unsupported(short[i]) {
      if i < |before| {
        assert long[i] == short[i];
      } else {
        assert long[i + 1] == short[i];
      }
    }
  }

  /** Removing a segment that is not the last of kind `k` moves that last one down by at most one place. */
  lemma LastAfterRemoval(before: seq<Segment>, seg: Segment, after: seq<Segment>, k: Kind)
    requires IsKind(seg, k) ==> exists j :: 0 <= j < |after| && IsKind(after[j], k)
    ensures var long, short := before + [seg] + after, before + after;
      var q := LastOf(short, k, |short|);
      LastOf(long, k, |long|) == if q < |before| then q else q + 1
  {
    var long, short := before + [seg] + after, before + after;
    var q := LastOf(short, k, |short|);
    if IsKind(seg, k) {
      var a :| 0 <= a < |after| && IsKind(after[a], k);
      assert short[|before| + a] == after[a];
      assert q >= |before|;
    }
    if q < |before| {
      assert long[|before|] == seg;
      forall j | q < j < |long| ensures !IsKind(long[j], k) {
        if j < |before| {
          assert long[j] == short[j];
        } else if j > |before| {
          assert long[j] == short[j - 1];
        }
      }
      LastOfUnique(long, k, |long|, q);
    } else {
      assert long[q + 1] == short[q];
      forall j | q + 1 < j < |long| ensures !IsKind(long[j], k) {
        assert long[j] == short[j - 1];
      }
      LastOfUnique(long, k, |long|, q + 1);
    }
  }
}

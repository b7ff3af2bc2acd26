/** Loading the image catalog (main.py lines 34-74): the parsed `list.json`
    document is walked record by record; records whose thumbnail is empty
    once leading "/" are stripped are skipped, the others become images with
    a percent-encoded `full_url` and defaulted fields. */
module Catalog {
  import opened Wrappers
  import opened Json
  import Url

  /** The title an image gets when its record has none. */
  const DefaultTitle := "随机猪图"

  /** One loaded image: the four keys of the dictionary the loader appends. */
  datatype PigImage = PigImage(title: Json, fullUrl: string, id: Json, filename: Json)

  /** The exceptions that end a load early (all caught and logged there). */
  datatype LoadError =
    | DocumentNotAnObject   // `json_data.get` on a non-dictionary document
    | ImagesNotIterable     // `images` is null, a boolean or a number
    | RecordNotAnObject     // `img.get` on a record that is not a dictionary
    | ThumbnailNotAString   // `.lstrip` on a thumbnail that is not a string

  /** What iterating over the document's `images` produces. */
  datatype Records = Items(records: seq<Json>) | Fails(error: LoadError)

  /** `s.lstrip("/")`. */
  function StripLeadingSlashes(s: string): (r: string)
    ensures |r| <= |s| && r == s[|s| - |r|..]
    ensures forall i :: 0 <= i < |s| - |r| ==> s[i] == '/'
    ensures |r| > 0 ==> r[0] != '/'
  {
    if |s| > 0 && s[0] == '/' then StripLeadingSlashes(s[1..]) else s
  }

  /** What Python's `for` can iterate among JSON values: lists, objects
      (their keys) and strings (their characters). */
  predicate IsIterable(v: Json) {
    v.Array? || v.Object? || v.Str?
  }

  /** `json_data.get("images", [])` followed by Python's iteration over it:
      a list yields its elements; an empty dictionary or string yields
      nothing; a non-empty one yields strings, the first of which fails as a
      record; anything else cannot be iterated. */
  function ImageRecords(doc: Json): (r: Records)
    ensures !doc.Object? ==> r == Fails(DocumentNotAnObject)
    ensures doc.Object? && "images" !in doc.fields ==> r == Items([])
    ensures doc.Object? && "images" in doc.fields && doc.fields["images"].Array? ==>
      r == Items(doc.fields["images"].items)
    ensures doc.Object? && "images" in doc.fields && !IsIterable(doc.fields["images"]) ==>
      r == Fails(ImagesNotIterable)
    ensures doc.Object? && "images" in doc.fields && doc.fields["images"].Object? ==>
      r == (if |doc.fields["images"].fields| == 0 then Items([]) else Fails(RecordNotAnObject))
    ensures doc.Object? && "images" in doc.fields && doc.fields["images"].Str? ==>
      r == (if doc.fields["images"].s == "" then Items([]) else Fails(RecordNotAnObject))
    ensures r.Items? && r.records != [] ==> doc.Object? && "images" in doc.fields && doc.fields["images"].Array?
  {
    match doc
    case Object(fields) =>
      if "images" !in fields then Items([])
      else
        match fields["images"] {
          case Array(items) => Items(items)
          case Object(m) => if |m| == 0 then Items([]) else Fails(RecordNotAnObject)
          case Str(s) => if s == "" then Items([]) else Fails(RecordNotAnObject)
          case _ => Fails(ImagesNotIterable)
        }
    case _ => Fails(DocumentNotAnObject)
  }

  /** A record whose processing raises: not a dictionary, or a thumbnail
      that is present but not a string. */
  predicate IsFaulty(record: Json) {
    !record.Object? || ("thumbnail" in record.fields && !record.fields["thumbnail"].Str?)
  }

  /** A record that yields an image: a dictionary whose thumbnail is a
      string with something other than "/" in it. */
  predicate IsUsable(record: Json) {
    && record.Object?
    && "thumbnail" in record.fields
    && record.fields["thumbnail"].Str?
    && HasNonSlash(record.fields["thumbnail"].s)
  }

  /** `s` holds a character other than "/". */
  predicate HasNonSlash(s: string) {
    |s| > 0 && (s[0] != '/' || HasNonSlash(s[1..]))
  }

  /** Stripping leading "/" leaves nothing exactly when there is nothing but
      "/". */
  lemma {:induction false} StripEmptyIff(s: string)
    ensures StripLeadingSlashes(s) == "" <==> !HasNonSlash(s)
    decreases |s|
  {
    if |s| > 0 && s[0] == '/' {
      StripEmptyIff(s[1..]);
    }
  }

  function FaultOf(record: Json): LoadError
    requires IsFaulty(record)
  {
    if !record.Object? then RecordNotAnObject else ThumbnailNotAString
  }

  /** The image a usable record becomes. */
  function ToImage(record: Json): PigImage
    requires IsUsable(record)
  {
    var fields := record.fields;
    PigImage(
      Get(fields, "title", Str(DefaultTitle)),
      Url.BuildUrl(StripLeadingSlashes(fields["thumbnail"].s)),
      Get(fields, "id", Str("")),
      Get(fields, "filename", Str("")))
  }

  /** A kept image's URL is built from the stripped thumbnail and starts with
      the base; absent fields take their defaults, present ones are copied. */
  lemma ToImageFields(record: Json)
    requires IsUsable(record)
    ensures var img := ToImage(record);
      && img.fullUrl == Url.BuildUrl(StripLeadingSlashes(record.fields["thumbnail"].s))
      && Url.IsPrefix(Url.BaseUrl, img.fullUrl)
      && ("title" !in record.fields ==> img.title == Str(DefaultTitle))
      && ("id" !in record.fields ==> img.id == Str(""))
      && ("filename" !in record.fields ==> img.filename == Str(""))
      && ("title" in record.fields ==> img.title == record.fields["title"])
      && ("id" in record.fields ==> img.id == record.fields["id"])
      && ("filename" in record.fields ==> img.filename == record.fields["filename"])
  {
    Url.BuildUrlStartsWithBase(StripLeadingSlashes(record.fields["thumbnail"].s));
  }

  /** The outcome of one pass of the loader's loop body. */
  datatype Outcome = Skip | Keep(image: PigImage) | Raise(error: LoadError)

  /** One pass of the loop body over `record`. */
  function Normalise(record: Json): (o: Outcome)
    ensures o.Raise? <==> IsFaulty(record)
    ensures o.Raise? ==> o.error == FaultOf(record)
    ensures o.Skip? <==> !IsFaulty(record) && !IsUsable(record)
    ensures o.Keep? <==> IsUsable(record)
    ensures o.Keep? ==> o.image == ToImage(record)
  {
    match record
    case Object(fields) =>
      var thumbnail := Get(fields, "thumbnail", Str(""));
      if !thumbnail.Str? then Raise(ThumbnailNotAString)
      else
        StripEmptyIff(thumbnail.s);
        if StripLeadingSlashes(thumbnail.s) == "" then Skip
        else Keep(ToImage(record))
    case _ => Raise(RecordNotAnObject)
  }

  /** The index of the first faulty record, or `|rs|` when there is none. */
  function FirstFaulty(rs: seq<Json>): (k: nat)
    ensures k <= |rs|
    ensures k < |rs| ==> IsFaulty(rs[k])
    ensures forall j :: 0 <= j < k ==> !IsFaulty(rs[j])
  {
    if |rs| == 0 then 0
    else if IsFaulty(rs[0]) then 0
    else 1 + FirstFaulty(rs[1..])
  }

  /** The images of the usable records of `rs`, in order. */
  function KeptImages(rs: seq<Json>): seq<PigImage>
  {
    if |rs| == 0 then []
    else
      var last := rs[|rs| - 1];
      KeptImages(rs[..|rs| - 1]) + (if IsUsable(last) then [ToImage(last)] else [])
  }

  /** The positions of the usable records of `rs`, ascending. */
  function UsableIndices(rs: seq<Json>): seq<nat>
  {
    if |rs| == 0 then []
    else
      var n := |rs| - 1;
      UsableIndices(rs[..n]) + (if IsUsable(rs[n]) then [n] else [])
  }

  /** Taking one more record extends the kept images by that record's image
      when it is usable. */
  lemma KeptImagesStep(rs: seq<Json>, i: nat)
    requires i < |rs|
    ensures KeptImages(rs[..i + 1]) ==
      KeptImages(rs[..i]) + (if IsUsable(rs[i]) then [ToImage(rs[i])] else [])
  {
    assert rs[..i + 1][..i] == rs[..i];
  }

  /** The loop of `_load_pig_from_json` over the records: the images kept,
      in record order, and the error that ended the loop early, if any. A
      failing record does not undo the images appended before it. */
  method LoadRecords(rs: seq<Json>) returns (images: seq<PigImage>, error: Option<LoadError>)
    ensures var k := FirstFaulty(rs);
      && images == KeptImages(rs[..k])
      && (error.None? <==> k == |rs|)
      && (error.Some? ==> k < |rs| && error.value == FaultOf(rs[k]))
  {
    images := [];
    var i := 0;
    while i < |rs|
      invariant i <= |rs|
      invariant forall j :: 0 <= j < i ==> !IsFaulty(rs[j])
      invariant images == KeptImages(rs[..i])
    {
      var outcome := Normalise(rs[i]);
      if outcome.Raise? {
        assert FirstFaulty(rs) == i;
        return images, Some(outcome.error);
      }
      KeptImagesStep(rs, i);
      if outcome.Keep? {
        images := images + [outcome.image];
      }
      i := i + 1;
    }
    assert rs[..i] == rs;
    error := None;
  }

  /** `_load_pig_from_json` on an already-parsed document: a document that
      cannot be iterated yields no images and its error; otherwise the loop
      runs over its records. A document without `images` yields an empty
      catalog and no error. */
  method LoadImages(doc: Json) returns (images: seq<PigImage>, error: Option<LoadError>)
    ensures ImageRecords(doc).Fails? ==> images == [] && error == Some(ImageRecords(doc).error)
    ensures ImageRecords(doc).Items? ==>
      var rs := ImageRecords(doc).records;
      var k := FirstFaulty(rs);
      && images == KeptImages(rs[..k])
      && (error.None? <==> k == |rs|)
      && (error.Some? ==> error == Some(FaultOf(rs[k])))
    ensures doc.Object? && "images" !in doc.fields ==> images == [] && error == None
  {
    var records := ImageRecords(doc);
    if records.Fails? {
      return [], Some(records.error);
    }
    images, error := LoadRecords(records.records);
  }

  /** The usable positions are ascending, in range, and each is the
      position of a usable record. */
  lemma {:induction false} UsableIndicesSound(rs: seq<Json>)
    ensures var idx := UsableIndices(rs);
      && |idx| <= |rs|
      && (forall j :: 0 < j < |idx| ==> idx[j - 1] < idx[j])
      && (forall j :: 0 <= j < |idx| ==> idx[j] < |rs| && IsUsable(rs[idx[j]]))
  {
    if |rs| > 0 {
      var n := |rs| - 1;
      var front := rs[..n];
      UsableIndicesSound(front);
      var pre := UsableIndices(front);
      forall j | 0 <= j < |pre|
        ensures rs[pre[j]] == front[pre[j]]
      {
      }
      if IsUsable(rs[n]) {
        assert UsableIndices(rs) == pre + [n];
      } else {
        assert UsableIndices(rs) == pre;
      }
    }
  }

  /** Every usable record's position is among the usable positions. */
  lemma {:induction false} UsableIndicesComplete(rs: seq<Json>)
    ensures forall i :: 0 <= i < |rs| && IsUsable(rs[i]) ==> i in UsableIndices(rs)
  {
    if |rs| > 0 {
      var n := |rs| - 1;
      var front := rs[..n];
      UsableIndicesComplete(front);
      var pre := UsableIndices(front);
      var idx := UsableIndices(rs);
      assert idx == pre + (if IsUsable(rs[n]) then [n] else []);
      forall i | 0 <= i < |rs| && IsUsable(rs[i])
        ensures i in idx
      {
        if i < n {
          assert front[i] == rs[i];
          assert i in pre;
        } else {
          assert idx[|idx| - 1] == n;
        }
      }
    }
  }

  /** There are as many kept images as usable records. */
  lemma {:induction false} KeptImagesCount(rs: seq<Json>)
    ensures |KeptImages(rs)| == |UsableIndices(rs)|
  {
    if |rs| > 0 {
      KeptImagesCount(rs[..|rs| - 1]);
    }
  }

  /** Pointwise form: the image at position j of the catalog comes from the
      j-th usable record. */
  lemma {:induction false} KeptImageAt(rs: seq<Json>, j: nat)
    requires j < |KeptImages(rs)|
    ensures j < |UsableIndices(rs)| && UsableIndices(rs)[j] < |rs| && IsUsable(rs[UsableIndices(rs)[j]])
    ensures KeptImages(rs)[j] == ToImage(rs[UsableIndices(rs)[j]])
  {
    KeptImagesCount(rs);
    UsableIndicesSound(rs);
    var n := |rs| - 1;
    var front := rs[..n];
    KeptImagesCount(front);
    if j < |KeptImages(front)| {
      KeptImageAt(front, j);
      assert KeptImages(rs)[j] == KeptImages(front)[j];
      assert UsableIndices(rs)[j] == UsableIndices(front)[j];
      assert rs[UsableIndices(front)[j]] == front[UsableIndices(front)[j]];
    } else {
      assert IsUsable(rs[n]);
      assert UsableIndices(rs)[j] == n;
    }
  }

  /** The kept images are, in order, the images of the usable records:
      the j-th image comes from the j-th usable position. */
  lemma KeptImagesFollowRecords(rs: seq<Json>)
    ensures |KeptImages(rs)| == |UsableIndices(rs)| <= |rs|
    ensures forall j :: 0 <= j < |KeptImages(rs)| ==>
      && UsableIndices(rs)[j] < |rs|
      && IsUsable(rs[UsableIndices(rs)[j]])
      && KeptImages(rs)[j] == ToImage(rs[UsableIndices(rs)[j]])
  {
    UsableIndicesSound(rs);
    KeptImagesCount(rs);
    forall j | 0 <= j < |KeptImages(rs)|
      ensures KeptImages(rs)[j] == ToImage(rs[UsableIndices(rs)[j]])
    {
      KeptImageAt(rs, j);
    }
  }

  /** Every kept image's URL starts with "https://pighub.top/". */
  lemma {:induction false} KeptImagesUrls(rs: seq<Json>)
    ensures forall img :: img in KeptImages(rs) ==> Url.IsPrefix(Url.BaseUrl, img.fullUrl)
  {
    KeptImagesFollowRecords(rs);
    forall img | img in KeptImages(rs)
      ensures Url.IsPrefix(Url.BaseUrl, img.fullUrl)
    {
      var j :| 0 <= j < |KeptImages(rs)| && KeptImages(rs)[j] == img;
      ToImageFields(rs[UsableIndices(rs)[j]]);
    }
  }
}

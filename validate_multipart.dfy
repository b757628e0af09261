/**
 * Model of the debug renderers of ValidateMultipartJson.go: `duple.String`,
 * `outOfBandData.String` and `validateRequest.String`. The rendering of one image
 * (`imageData.String`) is not part of this model: `ValidateRequestString` takes it
 * as a parameter.
 */
module ValidateMultipartJson {
  import opened Wrappers
  import Misc
  import Text

  datatype OutOfBandData = OutOfBandData(source: string, data: seq<string>)

  datatype Duple = Duple(key: string, val: string)

  datatype ImageData = ImageData(height: int, width: int, bitsPerPixel: int, imageMeta: seq<Duple>)

  datatype ValidateRequest = ValidateRequest(
    spokeId: string, requestId: string, outOfBand: seq<OutOfBandData>, images: seq<ImageData>)

  /** `duple.String`, the `[%s][%s]` format: the key and the value, each in square brackets. */
  function DupleString(d: Duple): (r: string)
    ensures |r| == |d.key| + |d.val| + 4
    ensures r[0] == '[' && r[|d.key| + 1] == ']' && r[|d.key| + 2] == '[' && r[|r| - 1] == ']'
    ensures r[1..|d.key| + 1] == d.key && r[|d.key| + 3..|r| - 1] == d.val
  {
    "[" + d.key + "][" + d.val + "]"
  }

  // ---------------------------------------------------------------- outOfBandData.String

  /** The data strings in order, each wrapped in double quotes, with nothing between them. */
  function Quoted(items: seq<string>): string
  {
    if items == [] then "" else Quoted(items[..|items| - 1]) + "\"" + items[|items| - 1] + "\""
  }

  /** Quoting distributes over concatenation of the lists: element order is kept. */
  lemma {:induction false} QuotedAppend(a: seq<string>, b: seq<string>)
    ensures Quoted(a + b) == Quoted(a) + Quoted(b)
    decreases |b|
  {
    if b == [] {
      assert a + b == a;
    } else {
      var b', last := b[..|b| - 1], b[|b| - 1];
      assert (a + b)[..|a + b| - 1] == a + b';
      assert (a + b)[|a + b| - 1] == last;
      calc {
        Quoted(a + b);
        Quoted(a + b') + "\"" + last + "\"";
        { QuotedAppend(a, b'); }
        Quoted(a) + (Quoted(b') + "\"" + last + "\"");
      }
    }
  }

  /** Each element contributes its own length plus two quote characters. */
  lemma {:induction false} QuotedLength(items: seq<string>)
    ensures |Quoted(items)| == 2 * |items| + SumLengths(items)
  {
    if items != [] {
      QuotedLength(items[..|items| - 1]);
    }
  }

  function SumLengths(items: seq<string>): nat
  {
    if items == [] then 0 else SumLengths(items[..|items| - 1]) + |items[|items| - 1]|
  }

  /** The text `outOfBandData.String` produces. */
  function OutOfBandText(o: OutOfBandData): string
  {
    "oob data: source [ " + o.source + " ] data [ " + Quoted(o.data) + " ]\n"
  }

  /** The rendering begins with the source label and the source, and always ends with ` ]\n`. */
  lemma OutOfBandTextShape(o: OutOfBandData)
    ensures var s := OutOfBandText(o);
      |s| >= 32 + |o.source| && s[..19 + |o.source|] == "oob data: source [ " + o.source
      && s[19 + |o.source|..29 + |o.source|] == " ] data [ " && s[|s| - 3..] == " ]\n"
  {
  }

  /** `outOfBandData.String`: the builder loop over `Data`, with its `IsStringSet` guards. */
  method OutOfBandString(o: OutOfBandData) returns (s: string)
    ensures s == OutOfBandText(o)
  {
    s := "oob data: source [ ";
    if Misc.IsStringSet(Some(o.source)) {
      s := s + o.source;
    }
    s := s + " ] data [ ";
    for i := 0 to |o.data|
      invariant s == "oob data: source [ " + o.source + " ] data [ " + Quoted(o.data[..i])
    {
      assert o.data[..i + 1][..i] == o.data[..i];
      s := s + "\"";
      if Misc.IsStringSet(Some(o.data[i])) {
        s := s + o.data[i];
      }
      s := s + "\"";
    }
    assert o.data[..|o.data|] == o.data;
    s := s + " ]\n";
  }

  // ---------------------------------------------------------------- validateRequest.String

  /** One out-of-band rendering between a tab and a newline. */
  function OutOfBandBlock(o: OutOfBandData): string
  {
    "\t" + OutOfBandText(o) + "\n"
  }

  /** The out-of-band blocks, in order. */
  function OutOfBandSection(obs: seq<OutOfBandData>): string
  {
    if obs == [] then "" else OutOfBandSection(obs[..|obs| - 1]) + OutOfBandBlock(obs[|obs| - 1])
  }

  /** One image rendering between a tab and a newline. */
  function ImageBlock(image: ImageData, imageText: ImageData -> string): string
  {
    "\t" + imageText(image) + "\n"
  }

  /** The image blocks, in order. */
  function ImageSection(images: seq<ImageData>, imageText: ImageData -> string): string
  {
    if images == [] then ""
    else ImageSection(images[..|images| - 1], imageText) + ImageBlock(images[|images| - 1], imageText)
  }

  function ValidateRequestHeader(v: ValidateRequest): string
  {
    "SpokeId: " + v.spokeId + "\tRequestId: " + v.requestId + "\n"
  }

  /** The text `validateRequest.String` produces. */
  function ValidateRequestText(v: ValidateRequest, imageText: ImageData -> string): string
  {
    ValidateRequestHeader(v) + OutOfBandSection(v.outOfBand) + ImageSection(v.images, imageText)
  }

  /**
   * `validateRequest.String`: the identifying line, then every out-of-band block, then every
   * image block; `imageText` stands for `imageData.String`.
   */
  method ValidateRequestString(v: ValidateRequest, imageText: ImageData -> string) returns (s: string)
    ensures s == ValidateRequestText(v, imageText)
  {
    s := "SpokeId: " + v.spokeId + "\tRequestId: " + v.requestId + "\n";
    ghost var header := s;
    for i := 0 to |v.outOfBand|
      invariant s == header + OutOfBandSection(v.outOfBand[..i])
    {
      var text := OutOfBandString(v.outOfBand[i]);
      OutOfBandSectionStep(v.outOfBand, i);
      Text.AppendAssociative(header, OutOfBandSection(v.outOfBand[..i]), "\t" + text + "\n");
      s := s + ("\t" + text + "\n");
    }
    assert v.outOfBand[..|v.outOfBand|] == v.outOfBand;
    ghost var oob := s;
    for i := 0 to |v.images|
      invariant s == oob + ImageSection(v.images[..i], imageText)
    {
      ImageSectionStep(v.images, imageText, i);
      Text.AppendAssociative(oob, ImageSection(v.images[..i], imageText), "\t" + imageText(v.images[i]) + "\n");
      s := s + ("\t" + imageText(v.images[i]) + "\n");
    }
    assert v.images[..|v.images|] == v.images;
  }

  lemma OutOfBandSectionStep(obs: seq<OutOfBandData>, i: nat)
    requires i < |obs|
    ensures OutOfBandSection(obs[..i + 1]) == OutOfBandSection(obs[..i]) + ("\t" + OutOfBandText(obs[i]) + "\n")
  {
    assert obs[..i + 1][..i] == obs[..i];
  }

  lemma ImageSectionStep(images: seq<ImageData>, imageText: ImageData -> string, i: nat)
    requires i < |images|
    ensures ImageSection(images[..i + 1], imageText) == ImageSection(images[..i], imageText) + ("\t" + imageText(images[i]) + "\n")
  {
    assert images[..i + 1][..i] == images[..i];
  }

  lemma {:induction false} OutOfBandSectionAppend(a: seq<OutOfBandData>, b: seq<OutOfBandData>)
    ensures OutOfBandSection(a + b) == OutOfBandSection(a) + OutOfBandSection(b)
    decreases |b|
  {
    if b == [] {
      assert a + b == a;
    } else {
      var b', last := b[..|b| - 1], b[|b| - 1];
      assert (a + b)[..|a + b| - 1] == a + b';
      assert (a + b)[|a + b| - 1] == last;
      calc {
        OutOfBandSection(a + b);
        OutOfBandSection(a + b') + OutOfBandBlock(last);
        { OutOfBandSectionAppend(a, b'); }
        OutOfBandSection(a) + OutOfBandSection(b') + OutOfBandBlock(last);
        { Text.AppendAssociative(OutOfBandSection(a), OutOfBandSection(b'), OutOfBandBlock(last)); }
        OutOfBandSection(a) + (OutOfBandSection(b') + OutOfBandBlock(last));
      }
    }
  }

  /**
   * The rendering of request `v` holds the header line, the blocks of the out-of-band items
   * before item `k`, item `k`'s own block, the blocks after it, and only then the image blocks.
   */
  lemma OutOfBandBeforeImages(v: ValidateRequest, imageText: ImageData -> string, k: nat)
    requires k < |v.outOfBand|
    ensures ValidateRequestText(v, imageText) ==
      ValidateRequestHeader(v) + OutOfBandSection(v.outOfBand[..k]) + OutOfBandBlock(v.outOfBand[k])
      + OutOfBandSection(v.outOfBand[k + 1..]) + ImageSection(v.images, imageText)
  {
    var obs := v.outOfBand;
    var pre, mid, post := obs[..k], [obs[k]], obs[k + 1..];
    assert obs == pre + mid + post;
    assert OutOfBandSection(mid) == OutOfBandBlock(obs[k]) by { assert mid[..0] == []; }
    assert OutOfBandSection(obs) == OutOfBandSection(pre) + OutOfBandBlock(obs[k]) + OutOfBandSection(post) by {
      OutOfBandSectionAppend(pre + mid, post);
      OutOfBandSectionAppend(pre, mid);
    }
    var head, section, images := ValidateRequestHeader(v), OutOfBandSection(pre), ImageSection(v.images, imageText);
    Text.AppendAssociative(head, section + OutOfBandBlock(obs[k]), OutOfBandSection(post));
    Text.AppendAssociative(head, section, OutOfBandBlock(obs[k]));
  }

}

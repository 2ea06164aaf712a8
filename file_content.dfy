/**
 * The client's file-message convention: an uploaded file is sent as the
 * text `FILE:<type>:<name>:<url>`, and `renderMessage` splits any content
 * starting with `FILE:` on every `':'`, takes pieces 1 to 3 as type, name
 * and url, and picks a presentation from the type. Only the chosen tag is
 * modelled, not the markup.
 */
module FileContent {
  import opened Wrappers

  const FilePrefix := "FILE:"

  datatype FileKind = Image | Video | Audio | Pdf | Generic

  /** What `renderMessage` shows; a missing piece of the split (JavaScript `undefined`) is None. */
  datatype Rendered =
    | Text(text: string)
    | File(kind: FileKind, fileType: string, name: Option<string>, url: Option<string>)

  predicate StartsWith(s: string, prefix: string) {
    |prefix| <= |s| && s[..|prefix|] == prefix
  }

  /** `` `FILE:${fileType}:${fileName}:${fileUrl}` `` */
  function Encode(fileType: string, fileName: string, fileUrl: string): string {
    FilePrefix + fileType + ":" + fileName + ":" + fileUrl
  }

  /** `s.split(':')`: the maximal colon-free pieces, in order; never empty. */
  function Split(s: string): (r: seq<string>)
    ensures |r| >= 1
  {
    if s == [] then [""]
    else if s[0] == ':' then [""] + Split(s[1..])
    else
      var rest := Split(s[1..]);
      [[s[0]] + rest[0]] + rest[1..]
  }

  function Piece(parts: seq<string>, i: nat): Option<string> {
    if i < |parts| then Some(parts[i]) else None
  }

  /** The branch chosen by `renderMessage` for a file type, tested in this order. */
  function KindOf(fileType: string): (k: FileKind)
    ensures k == Image <==> StartsWith(fileType, "image")
    ensures k == Video <==> !StartsWith(fileType, "image") && StartsWith(fileType, "video")
    ensures k == Audio <==>
      !StartsWith(fileType, "image") && !StartsWith(fileType, "video") && StartsWith(fileType, "audio")
    ensures k == Pdf <==> fileType == "application/pdf"
    ensures k == Generic <==>
      !StartsWith(fileType, "image") && !StartsWith(fileType, "video") && !StartsWith(fileType, "audio") &&
      fileType != "application/pdf"
  {
    assert "application/pdf"[..5] == "appli" && "appli" != "audio";
    if StartsWith(fileType, "image") then Image
    else if StartsWith(fileType, "video") then Video
    else if StartsWith(fileType, "audio") then Audio
    else if fileType == "application/pdf" then Pdf
    else Generic
  }

  /** `renderMessage`, reduced to the tag it renders. */
  function Render(content: string): (r: Rendered)
    ensures r.Text? <==> !StartsWith(content, FilePrefix)
    ensures r.Text? ==> r.text == content
    ensures r.File? ==> |Split(content)| >= 2 && r.fileType == Split(content)[1] && r.kind == KindOf(r.fileType)
  {
    if StartsWith(content, FilePrefix) then
      SplitAtColon(content, 4);
      var parts := Split(content);
      File(KindOf(parts[1]), parts[1], Piece(parts, 2), Piece(parts, 3))
    else Text(content)
  }

  /** A string with a colon splits into at least two pieces. */
  lemma {:induction false} SplitAtColon(s: string, i: nat)
    requires i < |s| && s[i] == ':'
    ensures |Split(s)| >= 2
  {
    if s[0] != ':' {
      SplitAtColon(s[1..], i - 1);
    }
  }

  /** A colon-free string is a single piece. */
  lemma {:induction false} SplitNoColon(a: string)
    requires ':' !in a
    ensures Split(a) == [a]
  {
    if a != [] {
      assert a[0] != ':' && ':' !in a[1..];
      SplitNoColon(a[1..]);
      assert [a[0]] + a[1..] == a;
    }
  }

  /** Splitting at the first colon: a colon-free head becomes the first piece. */
  lemma {:induction false} SplitFirst(a: string, b: string)
    requires ':' !in a
    ensures Split(a + ":" + b) == [a] + Split(b)
  {
    if a == [] {
      assert a + ":" + b == [':'] + b;
      assert (a + ":" + b)[1..] == b;
    } else {
      assert (a + ":" + b)[1..] == a[1..] + ":" + b;
      SplitFirst(a[1..], b);
      assert [a[0]] + a[1..] == a;
    }
  }

  /**
   * Encoding then splitting gives back exactly the type, name and url when
   * none of them contains a colon.
   */
  lemma SplitEncode(fileType: string, fileName: string, fileUrl: string)
    requires ':' !in fileType && ':' !in fileName && ':' !in fileUrl
    ensures Split(Encode(fileType, fileName, fileUrl)) == ["FILE", fileType, fileName, fileUrl]
  {
    assert Encode(fileType, fileName, fileUrl) == "FILE" + ":" + (fileType + ":" + (fileName + ":" + fileUrl));
    SplitFirst("FILE", fileType + ":" + (fileName + ":" + fileUrl));
    SplitFirst(fileType, fileName + ":" + fileUrl);
    SplitFirst(fileName, fileUrl);
    SplitNoColon(fileUrl);
  }

  /**
   * An encoded file renders as a file of the kind its type selects, with
   * the original name and url, when no piece contains a colon.
   */
  lemma RenderEncode(fileType: string, fileName: string, fileUrl: string)
    requires ':' !in fileType && ':' !in fileName && ':' !in fileUrl
    ensures Render(Encode(fileType, fileName, fileUrl)) == File(KindOf(fileType), fileType, Some(fileName), Some(fileUrl))
  {
    SplitEncode(fileType, fileName, fileUrl);
    assert StartsWith(Encode(fileType, fileName, fileUrl), FilePrefix);
  }

  /**
   * The round trip needs colon-free pieces: a url with a colon in it, such
   * as an absolute `http://` url, is cut at its first colon.
   */
  lemma RenderColonInUrl(fileType: string, fileName: string, scheme: string, rest: string)
    requires ':' !in fileType && ':' !in fileName && ':' !in scheme
    ensures Render(Encode(fileType, fileName, scheme + ":" + rest)) == File(KindOf(fileType), fileType, Some(fileName), Some(scheme))
  {
    var e := Encode(fileType, fileName, scheme + ":" + rest);
    assert e == "FILE" + ":" + (fileType + ":" + (fileName + ":" + (scheme + ":" + rest)));
    SplitFirst("FILE", fileType + ":" + (fileName + ":" + (scheme + ":" + rest)));
    SplitFirst(fileType, fileName + ":" + (scheme + ":" + rest));
    SplitFirst(fileName, scheme + ":" + rest);
    SplitFirst(scheme, rest);
    assert StartsWith(e, FilePrefix);
  }
}

/**
 * The download choices of `BookService` (services/book.js): which of a
 * book's published formats `fetch_content` and `fetch_image` fetch, and
 * the file path under which `fetch_image` stores a cover. The downloads,
 * the HTML-to-text conversion and the file write are not modelled; the
 * clock is the parameter `now`.
 */
module BookService {
  import opened Wrappers
  import opened Text

  /** One entry of the `formats` object: a MIME type and the URL it is served at, in key order. */
  datatype Format = Format(mime: string, url: string)

  /** Where `fetch_content` reads the book's text from. */
  datatype ContentSource =
    | PlainText(url: string)
    | Html(url: string)
    | NoSource   // neither kind is offered: `axios.get(null)` fails

  const PlainTextType := "text/plain"
  const HtmlType := "text/html"

  /** A format whose MIME type contains "text/plain". */
  predicate IsPlainText(f: Format) {
    Includes(f.mime, PlainTextType)
  }

  /** A format whose MIME type contains "text/html". */
  predicate IsHtml(f: Format) {
    Includes(f.mime, HtmlType)
  }

  /** The index of the last of the first `n` formats that satisfy `wanted`, or -1. */
  function LastIndexWith(formats: seq<Format>, wanted: Format -> bool, n: nat): (r: int)
    requires n <= |formats|
    ensures -1 <= r < n
  {
    if n == 0 then -1
    else if wanted(formats[n - 1]) then n - 1
    else LastIndexWith(formats, wanted, n - 1)
  }

  /** -1 exactly when no format is wanted; otherwise a wanted format with none after it. */
  lemma {:induction false} LastIndexWithMeans(formats: seq<Format>, wanted: Format -> bool, n: nat)
    requires n <= |formats|
    ensures var r := LastIndexWith(formats, wanted, n);
      && (r == -1 <==> forall i :: 0 <= i < n ==> !wanted(formats[i]))
      && (r != -1 ==> wanted(formats[r]) && forall j :: r < j < n ==> !wanted(formats[j]))
  {
    if n > 0 && !wanted(formats[n - 1]) {
      LastIndexWithMeans(formats, wanted, n - 1);
    }
  }

  /** The URL of the last wanted format, the value the loop at services/book.js:11-14 leaves in `texte` or `html`. */
  function LastWith(formats: seq<Format>, wanted: Format -> bool, n: nat): Option<string>
    requires n <= |formats|
  {
    var i := LastIndexWith(formats, wanted, n);
    if i == -1 then None else Some(formats[i].url)
  }

  /** The loop of services/book.js:11-14: the last plain-text URL and the last HTML URL offered. */
  method ScanTextFormats(formats: seq<Format>) returns (texte: Option<string>, html: Option<string>)
    ensures texte == LastWith(formats, IsPlainText, |formats|)
    ensures html == LastWith(formats, IsHtml, |formats|)
  {
    texte := None;
    html := None;
    for i := 0 to |formats|
      invariant texte == LastWith(formats, IsPlainText, i)
      invariant html == LastWith(formats, IsHtml, i)
    {
      if Includes(formats[i].mime, PlainTextType) {
        texte := Some(formats[i].url);
      }
      if Includes(formats[i].mime, HtmlType) {
        html := Some(formats[i].url);
      }
    }
  }

  /** The choice `fetch_content` makes (services/book.js:8-22): the last plain-text format, else the last HTML one. */
  method ChooseContentSource(formats: seq<Format>) returns (source: ContentSource)
    ensures var t := LastIndexWith(formats, IsPlainText, |formats|);
      t != -1 ==> source == PlainText(formats[t].url)
    ensures var t := LastIndexWith(formats, IsPlainText, |formats|);
      var h := LastIndexWith(formats, IsHtml, |formats|);
      t == -1 && h != -1 ==> source == Html(formats[h].url)
    ensures source == NoSource <==>
      forall i :: 0 <= i < |formats| ==> !IsPlainText(formats[i]) && !IsHtml(formats[i])
  {
    var texte, html := ScanTextFormats(formats);
    LastIndexWithMeans(formats, IsPlainText, |formats|);
    LastIndexWithMeans(formats, IsHtml, |formats|);
    if texte.Some? {
      return PlainText(texte.value);
    }
    if html.Some? {
      return Html(html.value);
    }
    return NoSource;
  }

  /** The cover formats `fetch_image` accepts (`FORMATS`). */
  const ImageFormats: seq<string> := ["image/jpeg", "image/png"]

  /** The URL of the first format whose MIME type is exactly one of the accepted cover formats (services/book.js:31-38). */
  method ChooseImage(formats: seq<Format>) returns (image: Option<string>)
    ensures image.None? <==> forall i :: 0 <= i < |formats| ==> formats[i].mime !in ImageFormats
    ensures image.Some? ==> exists i :: 0 <= i < |formats| && formats[i].mime in ImageFormats && formats[i].url == image.value
                              && forall j :: 0 <= j < i ==> formats[j].mime !in ImageFormats
  {
    image := None;
    for i := 0 to |formats|
      invariant forall j :: 0 <= j < i ==> formats[j].mime !in ImageFormats
    {
      if formats[i].mime in ImageFormats {
        image := Some(formats[i].url);
        break;
      }
    }
  }

  /** A character `fetch_image` keeps in a file name: a-z, A-Z or 0-9. */
  predicate IsAlnum(c: char) {
    'a' <= c <= 'z' || 'A' <= c <= 'Z' || '0' <= c <= '9'
  }

  /** A character that can appear in a stored file name. */
  predicate IsFileNameChar(c: char) {
    'a' <= c <= 'z' || '0' <= c <= '9' || c == '-'
  }

  /** `title.replace(/[^a-zA-Z0-9]/g, '-').toLowerCase()`. */
  function FileBase(title: string): (r: string)
    ensures |r| == |title|
    ensures forall i :: 0 <= i < |r| ==> IsFileNameChar(r[i])
    ensures forall i :: 0 <= i < |r| ==> (r[i] == '-' <==> !IsAlnum(title[i]))
    ensures forall i :: 0 <= i < |r| ==> IsAlnum(title[i]) ==> r[i] == LowerChar(title[i])
  {
    Lower(seq(|title|, i requires 0 <= i < |title| => if IsAlnum(title[i]) then title[i] else '-'))
  }

  /** A title already turned into a file name is left as it is. */
  lemma FileBaseIdempotent(title: string)
    ensures FileBase(FileBase(title)) == FileBase(title)
  {
    var b := FileBase(title);
    var bb := FileBase(b);
    forall i | 0 <= i < |b| ensures bb[i] == b[i] {
      assert IsFileNameChar(b[i]);
    }
  }

  /** The path `fetch_image` writes the cover to (services/book.js:43-44), with `now` for `Date.now()`. */
  function ImagePath(title: string, now: nat): string
  {
    "assets/images/" + FileBase(title) + "-" + DecimalString(now) + ".jpg"
  }

  /** The stored file stays inside assets/images/: the name between the directory and ".jpg" uses only a-z, 0-9 and '-'. */
  lemma ImagePathStaysInFolder(title: string, now: nat)
    ensures var p := ImagePath(title, now);
      && |p| == |"assets/images/"| + |title| + 1 + |DecimalString(now)| + |".jpg"|
      && p[..14] == "assets/images/"
      && p[|p| - 4..] == ".jpg"
      && forall i :: 14 <= i < |p| - 4 ==> IsFileNameChar(p[i])
  {
    var p := ImagePath(title, now);
    var name := FileBase(title) + "-" + DecimalString(now);
    assert p == "assets/images/" + name + ".jpg";
    assert p[..14] == "assets/images/";
    assert p[|p| - 4..] == ".jpg";
    FileNameChars(title, now);
    forall i | 14 <= i < |p| - 4 ensures IsFileNameChar(p[i]) {
      assert p[i] == name[i - 14];
    }
  }

  /** The name between the directory and the extension uses only file-name characters. */
  lemma FileNameChars(title: string, now: nat)
    ensures var name := FileBase(title) + "-" + DecimalString(now);
      forall j :: 0 <= j < |name| ==> IsFileNameChar(name[j])
  {
    var base, digits := FileBase(title), DecimalString(now);
    var name := base + "-" + digits;
    forall j | 0 <= j < |name| ensures IsFileNameChar(name[j]) {
      if j < |base| {
        assert name[j] == base[j];
      } else if j > |base| {
        assert name[j] == digits[j - |base| - 1];
      }
    }
  }

  /** The timestamp is what tells two covers of the same title apart. */
  lemma ImagePathDistinguishesTimes(title: string, now: nat, later: nat)
    requires ImagePath(title, now) == ImagePath(title, later)
    ensures now == later
  {
    var p := ImagePath(title, now);
    var q := ImagePath(title, later);
    var k := 14 + |title| + 1;
    assert p[k..|p| - 4] == DecimalString(now);
    assert q[k..|q| - 4] == DecimalString(later);
    DecimalStringInjective(now, later);
  }

  /** `fetch_image`: no path when no cover format is offered, otherwise the path the cover is stored under, whichever of the two formats was downloaded. */
  method FetchImage(formats: seq<Format>, title: string, now: nat) returns (path: Option<string>)
    ensures path.None? <==> forall i :: 0 <= i < |formats| ==> formats[i].mime !in ImageFormats
    ensures path.Some? ==> path.value == ImagePath(title, now)
  {
    var image := ChooseImage(formats);
    if image.None? {
      return None;
    }
    path := Some(ImagePath(title, now));
  }
}

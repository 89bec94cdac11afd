/** The decision logic of the `run-on-all-images` command: which embed links
    of a note are sent to OCR, and with which image. Each scanned match is
    resolved to the FIRST image whose name occurs in the match text
    (`Array.find`); unresolved matches are ignored; a resolved match is
    queued unless the note contains the match text followed by `<details>`
    ANYWHERE (a whole-note substring test, not a look at the characters
    right after this particular link). */
module OcrQueue {
  import opened Optional
  import opened Text
  import opened FileNames
  import opened Vault
  import opened LinkScan

  const DetailsTag: string := "<details>"

  /** `images[k]` is what `images.find(e => link.contains(e.name))` returns. */
  ghost predicate IsFirstImageIn(link: string, images: seq<Entry>, k: nat)
  {
    && k < |images|
    && Contains(link, images[k].name)
    && forall k' :: 0 <= k' < k ==> !Contains(link, images[k'].name)
  }

  /** Index of the first image at or after `i` whose name occurs in `link`. */
  function FindImageFrom(link: string, images: seq<Entry>, i: nat): (r: Option<nat>)
    requires i <= |images|
    ensures r.Some? ==> i <= r.value < |images| && Contains(link, images[r.value].name)
    ensures r.Some? ==> forall k :: i <= k < r.value ==> !Contains(link, images[k].name)
    ensures r.None? ==> forall k :: i <= k < |images| ==> !Contains(link, images[k].name)
    decreases |images| - i
  {
    if i == |images| then None
    else if Includes(link, images[i].name) then Some(i)
    else FindImageFrom(link, images, i + 1)
  }

  /** `allImages.find(e => match[0].contains(e.name))`. */
  function Resolve(link: string, images: seq<Entry>): (r: Option<Entry>)
    ensures r.Some? ==> exists k: nat :: IsFirstImageIn(link, images, k) && images[k] == r.value
    ensures r.None? <==> forall k :: 0 <= k < |images| ==> !Contains(link, images[k].name)
  {
    match FindImageFrom(link, images, 0)
    case Some(k) =>
      assert IsFirstImageIn(link, images, k);
      Some(images[k])
    case None => None
  }

  /** `content.contains(match[0] + '<details>')`. */
  predicate IsAnnotated(content: string, link: string)
  {
    Includes(content, link + DetailsTag)
  }

  /** Every span lies inside `s`. */
  ghost predicate SpansWithin(s: string, spans: seq<Span>)
  {
    forall k :: 0 <= k < |spans| ==> spans[k].start <= spans[k].stop <= |s|
  }

  /** Reference meaning of one queue entry: `x` is what the callback sends to
      OCR for the match `sp` of `content`. */
  ghost predicate QueuedFor(content: string, images: seq<Entry>, sp: Span, x: (string, Entry))
  {
    && sp.start <= sp.stop <= |content|
    && x.0 == SpanText(content, sp)
    && Resolve(x.0, images) == Some(x.1)
    && !Contains(content, x.0 + DetailsTag)
  }

  /** The per-match step of the callback, applied to the matches in order. */
  function QueueLinks(content: string, spans: seq<Span>, images: seq<Entry>): (r: seq<(string, Entry)>)
    requires SpansWithin(content, spans)
    ensures |r| <= |spans|
    ensures forall x :: x in r ==> x.1 in images && Contains(x.0, x.1.name)
    ensures forall x :: x in r ==> !Contains(content, x.0 + DetailsTag)
  {
    if |spans| == 0 then []
    else
      var t := SpanText(content, spans[0]);
      var rest := QueueLinks(content, spans[1..], images);
      match Resolve(t, images)
      case None => rest
      case Some(img) =>
        if IsAnnotated(content, t) then rest else [(t, img)] + rest
  }

  /** Exactly the matches that resolve to an image and are not annotated are
      queued, each with the image it resolves to. */
  lemma {:induction false} QueueLinksMembership(content: string, spans: seq<Span>, images: seq<Entry>,
                                                x: (string, Entry))
    requires SpansWithin(content, spans)
    ensures x in QueueLinks(content, spans, images) <==>
      exists k :: 0 <= k < |spans| && QueuedFor(content, images, spans[k], x)
  {
    if |spans| > 0 {
      var tail := spans[1..];
      QueueLinksMembership(content, tail, images, x);
      if exists k :: 0 <= k < |spans| && QueuedFor(content, images, spans[k], x) {
        var k :| 0 <= k < |spans| && QueuedFor(content, images, spans[k], x);
        if k > 0 {
          assert tail[k - 1] == spans[k];
        }
      }
      if exists k :: 0 <= k < |tail| && QueuedFor(content, images, tail[k], x) {
        var k :| 0 <= k < |tail| && QueuedFor(content, images, tail[k], x);
        assert spans[k + 1] == tail[k];
      }
    }
  }

  /** The queue of a concatenation of matches is the concatenation of their
      queues: matches are handled independently and in order. */
  lemma {:induction false} QueueLinksAppend(content: string, a: seq<Span>, b: seq<Span>, images: seq<Entry>)
    requires SpansWithin(content, a) && SpansWithin(content, b)
    ensures SpansWithin(content, a + b)
    ensures QueueLinks(content, a + b, images) == QueueLinks(content, a, images) + QueueLinks(content, b, images)
  {
    if |a| > 0 {
      assert (a + b)[0] == a[0];
      assert (a + b)[1..] == a[1..] + b;
      QueueLinksAppend(content, a[1..], b, images);
    } else {
      assert a + b == b;
    }
  }

  /** What the command queues for OCR in one note: (match text, image) pairs
      in the order the matches occur. */
  function ToOcr(content: string, images: seq<Entry>): (r: seq<(string, Entry)>)
    ensures |r| <= |ScanLinks(content, 0)|
    ensures forall x :: x in r ==> IsLinkText(x.0)
    ensures forall x :: x in r ==> Resolve(x.0, images) == Some(x.1)
    ensures forall x :: x in r ==> !Contains(content, x.0 + DetailsTag)
  {
    var spans := ScanLinks(content, 0);
    var q := QueueLinks(content, spans, images);
    forall x | x in q
      ensures IsLinkText(x.0) && Resolve(x.0, images) == Some(x.1)
    {
      QueueLinksMembership(content, spans, images, x);
      var k :| 0 <= k < |spans| && QueuedFor(content, images, spans[k], x);
      MatchTextIsLink(content, spans[k].start, spans[k].stop);
    }
    q
  }

  /** `x` comes from some scanned match of `content`. */
  ghost predicate QueuedByScan(content: string, images: seq<Entry>, x: (string, Entry))
  {
    var spans := ScanLinks(content, 0);
    exists k :: 0 <= k < |spans| && QueuedFor(content, images, spans[k], x)
  }

  /** `x` is queued iff it comes from a scanned match that resolves to `x.1`
      and whose text is nowhere followed by `<details>`. */
  lemma {:induction false} ToOcrMembership(content: string, images: seq<Entry>, x: (string, Entry))
    ensures x in ToOcr(content, images) <==> QueuedByScan(content, images, x)
  {
    var spans := ScanLinks(content, 0);
    assert ToOcr(content, images) == QueueLinks(content, spans, images);
    QueueLinksMembership(content, spans, images, x);
  }

  /** A link annotated in place (its match is immediately followed by
      `<details>`) is never queued, and neither is any other occurrence of
      the same link text. */
  lemma {:induction false} AnnotatedInPlaceIsSkipped(content: string, images: seq<Entry>, k: nat)
    requires k < |ScanLinks(content, 0)|
    requires OccursAt(content, DetailsTag, ScanLinks(content, 0)[k].stop)
    ensures forall x :: x in ToOcr(content, images) ==> x.0 != SpanText(content, ScanLinks(content, 0)[k])
  {
    var sp := ScanLinks(content, 0)[k];
    var t := SpanText(content, sp);
    assert content[sp.start..sp.stop + |DetailsTag|] == t + DetailsTag;
    assert OccursAt(content, t + DetailsTag, sp.start);
  }

  /** Once every match of a note is annotated somewhere in the note, nothing
      of that note is queued: a note the command has fully annotated stays
      quiet on the next run. */
  lemma {:induction false} FullyAnnotatedNoteQueuesNothing(content: string, images: seq<Entry>)
    requires forall k :: 0 <= k < |ScanLinks(content, 0)| ==>
      IsAnnotated(content, SpanText(content, ScanLinks(content, 0)[k]))
    ensures ToOcr(content, images) == []
  {
    if |ToOcr(content, images)| > 0 {
      var x := ToOcr(content, images)[0];
      ToOcrMembership(content, images, x);
    }
  }

  /** Worked decision: two embeds on one line form one match, which resolves
      to the first listed image whose name it contains, so the second image
      is never queued. */
  lemma {:induction false} SharedLineHidesSecondImage(a: Entry, b: Entry)
    requires a.name == "a.png" && b.name == "b.png"
    ensures ToOcr("![[a.png]] ![[b.png]]", [a, b]) == [("![[a.png]] ![[b.png]]", a)]
  {
    var content := "![[a.png]] ![[b.png]]";
    TwoLinksOneLineExample();
    var spans := ScanLinks(content, 0);
    assert SpanText(content, spans[0]) == content;
    assert OccursAt(content, a.name, 3);
    assert IsFirstImageIn(content, [a, b], 0);
    assert !IsAnnotated(content, content);
    assert spans[1..] == [];
    assert QueueLinks(content, spans, [a, b]) == [(content, a)];
  }

  /** One job of the command: OCR `image` because of `link` in `note`. */
  datatype OcrJob = OcrJob(note: Entry, link: string, image: Entry)

  /** The jobs of one note. */
  function NoteJobs(note: Entry, content: string, images: seq<Entry>): (r: seq<OcrJob>)
    ensures |r| == |ToOcr(content, images)|
    ensures forall i :: 0 <= i < |r| ==>
      r[i].note == note && (r[i].link, r[i].image) == ToOcr(content, images)[i]
  {
    var q := ToOcr(content, images);
    seq(|q|, i requires 0 <= i < |q| => OcrJob(note, q[i].0, q[i].1))
  }

  /** The second traversal: every markdown entry whose content could be read
      (`contents` maps readable paths to their text). */
  function CollectJobs(entries: seq<Entry>, images: seq<Entry>, contents: map<string, string>): (r: seq<OcrJob>)
    ensures forall j :: j in r ==>
      && j.note in entries && IsMarkdown(j.note.name) && j.note.path in contents
      && (j.link, j.image) in ToOcr(contents[j.note.path], images)
  {
    if |entries| == 0 then []
    else
      var e := entries[0];
      var here := if IsMarkdown(e.name) && e.path in contents then NoteJobs(e, contents[e.path], images) else [];
      assert forall j :: j in here ==> (j.link, j.image) in ToOcr(contents[e.path], images) by {
        forall j | j in here
          ensures (j.link, j.image) in ToOcr(contents[e.path], images)
        {
          var i :| 0 <= i < |here| && here[i] == j;
        }
      }
      here + CollectJobs(entries[1..], images, contents)
  }

  /** The whole `run-on-all-images` callback: build the image set, then
      collect the OCR jobs of every readable markdown note. */
  function RunOnAllImages(entries: seq<Entry>, settings: Settings, contents: map<string, string>): (r: seq<OcrJob>)
    ensures forall j :: j in r ==> j.note in entries && IsMarkdown(j.note.name)
    ensures forall j :: j in r ==>
      j.image in entries && IsImage(j.image.name) && Contains(j.image.path, settings.imagePath)
    ensures forall j :: j in r ==>
      && j.note.path in contents
      && IsLinkText(j.link)
      && Contains(j.link, j.image.name)
      && !Contains(contents[j.note.path], j.link + DetailsTag)
    ensures forall j :: j in r ==>
      (j.link, j.image) in ToOcr(contents[j.note.path], ImageSet(entries, settings.imagePath))
    ensures forall j :: j in r ==> Resolve(j.link, ImageSet(entries, settings.imagePath)) == Some(j.image)
  {
    var images := ImageSet(entries, settings.imagePath);
    var r := CollectJobs(entries, images, contents);
    forall j | j in r
      ensures Contains(j.link, j.image.name) && j.image in images
    {
      var x := (j.link, j.image);
      ToOcrMembership(contents[j.note.path], images, x);
      var k: nat :| IsFirstImageIn(j.link, images, k) && images[k] == j.image;
    }
    r
  }

  /** Conversely, every queue entry of every readable markdown note becomes a
      job of the command. */
  lemma {:induction false} CollectJobsComplete(entries: seq<Entry>, images: seq<Entry>,
                                              contents: map<string, string>, note: Entry, x: (string, Entry))
    requires note in entries && IsMarkdown(note.name) && note.path in contents
    requires x in ToOcr(contents[note.path], images)
    ensures OcrJob(note, x.0, x.1) in CollectJobs(entries, images, contents)
  {
    if entries[0] == note {
      var q := ToOcr(contents[note.path], images);
      var i :| 0 <= i < |q| && q[i] == x;
      assert NoteJobs(note, contents[note.path], images)[i] == OcrJob(note, x.0, x.1);
    } else {
      CollectJobsComplete(entries[1..], images, contents, note, x);
    }
  }

  lemma {:induction false} RunOnAllImagesComplete(entries: seq<Entry>, settings: Settings,
                                                 contents: map<string, string>, note: Entry, x: (string, Entry))
    requires note in entries && IsMarkdown(note.name) && note.path in contents
    requires x in ToOcr(contents[note.path], ImageSet(entries, settings.imagePath))
    ensures OcrJob(note, x.0, x.1) in RunOnAllImages(entries, settings, contents)
  {
    CollectJobsComplete(entries, ImageSet(entries, settings.imagePath), contents, note, x);
  }
}

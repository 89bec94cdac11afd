/** The plugin's two filename classifiers. Both look only at the SECOND
    dot-separated segment of the name (`name.split('.')[1]`) and test it by
    exact, case-sensitive membership in a fixed list; a name without a dot
    has no second segment (`undefined`) and is in neither class. */
module FileNames {
  import opened Optional
  import opened Text

  const ImageExtensions: seq<string> := ["jpg", "png", "jpeg"]
  const MarkdownExtensions: seq<string> := ["md"]

  /** `name.split('.')[1]`, or `None` where JavaScript yields `undefined`. */
  function SecondSegment(name: string): (r: Option<string>)
    ensures r.None? <==> '.' !in name
    ensures r.Some? ==> '.' !in r.value
  {
    var parts := Split(name, '.');
    if |parts| >= 2 then Some(parts[1])
    else
      assert name == parts[0];
      None
  }

  /** `[i, j)` frames the second segment of `name`: `i` is its first dot,
      and `j` is the next dot after it or the end of the name. */
  ghost predicate SegmentBounds(name: string, i: nat, j: nat)
  {
    && i < j <= |name|
    && name[i] == '.'
    && '.' !in name[..i]
    && '.' !in name[i + 1..j]
    && (j == |name| || name[j] == '.')
  }

  /** The second segment is exactly the text between the first dot and the
      next dot (or the end of the name). */
  lemma {:induction false} SecondSegmentBetweenDots(name: string, i: nat, j: nat)
    requires SegmentBounds(name, i, j)
    ensures SecondSegment(name) == Some(name[i + 1..j])
  {
    SplitAtFirst(name, '.', i);
    var tail := name[i + 1..];
    var parts := Split(name, '.');
    assert parts[1] == Split(tail, '.')[0];
    if j == |name| {
      assert tail == name[i + 1..j];
      assert '.' !in tail;
      assert Split(tail, '.') == [tail];
    } else {
      var k := j - (i + 1);
      assert tail[..k] == name[i + 1..j];
      assert tail[k] == '.';
      SplitAtFirst(tail, '.', k);
    }
  }

  /** A name with a dot has exactly one frame for its second segment. */
  lemma {:induction false} SegmentBoundsExist(name: string) returns (i: nat, j: nat)
    requires '.' in name
    ensures SegmentBounds(name, i, j)
  {
    i := FirstIndexOf(name, '.').value;
    var tail := name[i + 1..];
    match FirstIndexOf(tail, '.')
    case None =>
      j := |name|;
      assert name[i + 1..j] == tail;
    case Some(k) =>
      j := i + 1 + k;
      assert name[i + 1..j] == tail[..k];
  }

  /** `isImage` (src/main.ts). */
  predicate IsImage(name: string)
  {
    var seg := SecondSegment(name);
    seg.Some? && seg.value in ImageExtensions
  }

  /** `isMarkdown` (src/main.ts). */
  predicate IsMarkdown(name: string)
  {
    var seg := SecondSegment(name);
    seg.Some? && seg.value in MarkdownExtensions
  }

  /** A name is an image iff it has a dot and the text between its first and
      second dot (or the end) is exactly "jpg", "png" or "jpeg". */
  lemma {:induction false} IsImageCharacterization(name: string)
    ensures IsImage(name) <==>
      exists i: nat, j: nat :: SegmentBounds(name, i, j) && name[i + 1..j] in ImageExtensions
  {
    if '.' in name {
      var i, j := SegmentBoundsExist(name);
      SecondSegmentBetweenDots(name, i, j);
      forall i': nat, j': nat | SegmentBounds(name, i', j')
        ensures name[i' + 1..j'] == name[i + 1..j]
      {
        SecondSegmentBetweenDots(name, i', j');
      }
    }
  }

  /** A name is markdown iff the text between its first and second dot (or
      the end) is exactly "md". */
  lemma {:induction false} IsMarkdownCharacterization(name: string)
    ensures IsMarkdown(name) <==>
      exists i: nat, j: nat :: SegmentBounds(name, i, j) && name[i + 1..j] == "md"
  {
    if '.' in name {
      var i, j := SegmentBoundsExist(name);
      SecondSegmentBetweenDots(name, i, j);
      forall i': nat, j': nat | SegmentBounds(name, i', j')
        ensures name[i' + 1..j'] == name[i + 1..j]
      {
        SecondSegmentBetweenDots(name, i', j');
      }
    }
  }

  /** A name without a dot is neither an image nor markdown, and every name
      classified as an image is not markdown and vice versa. */
  lemma {:induction false} ClassesAreDisjoint(name: string)
    ensures '.' !in name ==> !IsImage(name) && !IsMarkdown(name)
    ensures !(IsImage(name) && IsMarkdown(name))
  {
  }

  /** Building a name from its parts: whatever precedes the first dot is
      ignored, and whatever follows the second dot is ignored too. */
  lemma {:induction false} SecondSegmentOfParts(first: string, ext: string, rest: string)
    requires '.' !in first && '.' !in ext
    requires rest == [] || rest[0] == '.'
    ensures SecondSegment(first + "." + ext + rest) == Some(ext)
  {
    var name := first + "." + ext + rest;
    var i, j := |first|, |first| + 1 + |ext|;
    assert name[..i] == first;
    assert name[i + 1..j] == ext;
    SecondSegmentBetweenDots(name, i, j);
  }

  /** Worked classification: the extension test is case-sensitive. */
  lemma {:induction false} UpperCaseIsNotImage()
    ensures !IsImage("a.PNG")
  {
    SecondSegmentOfParts("a", "PNG", "");
    assert "a.PNG" == "a" + "." + "PNG" + "";
  }

  /** Worked classification: only the segment after the first dot counts, so
      a second extension is ignored. */
  lemma {:induction false} DoubleExtensionIsNotImage()
    ensures !IsImage("a.b.png")
  {
    var name := "a" + "." + "b" + ".png";
    SecondSegmentOfParts("a", "b", ".png");
    assert !IsImage(name);
    assert name == "a.b.png";
  }

  /** Worked classification: anything after the second dot is ignored. */
  lemma {:induction false} BackupSuffixIsImage()
    ensures IsImage("a.png.bak")
  {
    SecondSegmentOfParts("a", "png", ".bak");
    assert "a.png.bak" == "a" + "." + "png" + ".bak";
  }
}

/** The vault as the command sees it: the entries `Vault.recurseChildren`
    enumerates (files and folders alike, each with a `name` and a `path`),
    the plugin's one setting, and the image set built from them. */
module Vault {
  import opened Text
  import opened FileNames

  /** One enumerated vault entry (`TAbstractFile`). */
  datatype Entry = Entry(name: string, path: string)

  /** The plugin settings (`MyPluginSettings`). */
  datatype Settings = Settings(imagePath: string)

  /** `DEFAULT_SETTINGS`. */
  const DefaultSettings: Settings := Settings("Meta/Attachments")

  /** The test the enumeration callback applies to each entry. */
  predicate IsVaultImage(e: Entry, imagePath: string)
  {
    Includes(e.path, imagePath) && IsImage(e.name)
  }

  /** `allImages`: the entries, in enumeration order, whose path contains
      `imagePath` and whose name is an image. */
  function ImageSet(entries: seq<Entry>, imagePath: string): (r: seq<Entry>)
    ensures forall e :: e in r <==> e in entries && Contains(e.path, imagePath) && IsImage(e.name)
    ensures |r| <= |entries|
  {
    if |entries| == 0 then []
    else
      var rest := ImageSet(entries[1..], imagePath);
      if IsVaultImage(entries[0], imagePath) then [entries[0]] + rest else rest
  }

  /** The image set of a concatenated enumeration is the concatenation of the
      image sets: the filter keeps enumeration order and multiplicity. */
  lemma {:induction false} ImageSetAppend(a: seq<Entry>, b: seq<Entry>, imagePath: string)
    ensures ImageSet(a + b, imagePath) == ImageSet(a, imagePath) + ImageSet(b, imagePath)
  {
    if |a| > 0 {
      assert (a + b)[0] == a[0];
      assert (a + b)[1..] == a[1..] + b;
      ImageSetAppend(a[1..], b, imagePath);
    } else {
      assert a + b == b;
    }
  }

  /** With the default setting, an image entry whose path starts with
      `Meta/Attachments` is kept. */
  lemma {:induction false} DefaultSettingsKeepAttachment(e: Entry)
    requires IsImage(e.name) && DefaultSettings.imagePath <= e.path
    ensures ImageSet([e], DefaultSettings.imagePath) == [e]
  {
    assert OccursAt(e.path, DefaultSettings.imagePath, 0);
    assert [e][1..] == [];
  }
}

/**
 * Worked examples on concrete keys: how a key splits into its `:`-separated
 * tags, and what the substring filter keeps.
 */
module Scenarios {
  import opened Wrappers
  import opened PyStr
  import opened Metadata
  import opened MetadataTree

  /** A two-segment key is a group tag and a field name. */
  lemma SplitMake()
    ensures Split("EXIF:Make", ':') == ["EXIF", "Make"]
  {
    assert Join(["EXIF", "Make"], ':') == "EXIF" + [':'] + Join(["Make"], ':');
    assert "EXIF" + [':'] + "Make" == "EXIF:Make";
    JoinSplit(["EXIF", "Make"], ':');
  }

  /** A three-segment key splits into three tags, which makes it a leaf key. */
  lemma SplitDeep()
    ensures Split("EXIF:A:B", ':') == ["EXIF", "A", "B"]
    ensures !IsPair("EXIF:A:B") && RootTag("EXIF:A:B") == "EXIF"
  {
    assert Join(["EXIF", "A", "B"], ':') == "EXIF" + [':'] + Join(["A", "B"], ':');
    assert Join(["A", "B"], ':') == "A" + [':'] + Join(["B"], ':');
    assert "EXIF" + [':'] + ("A" + [':'] + "B") == "EXIF:A:B";
    JoinSplit(["EXIF", "A", "B"], ':');
  }

  /** `"EXIF"` occurs nowhere in `"File:Size"`: no position holds an `E`. */
  lemma NotInFileSize()
    ensures !IsSubstring("EXIF", "File:Size")
  {
    var s := "File:Size";
    assert forall k :: 0 <= k < |s| ==> s[k] != 'E';
    forall i | 0 <= i <= |s| - 4
      ensures !OccursAt("EXIF", s, i)
    {
      assert s[i..i + 4][0] == s[i];
    }
  }

  /** Filtering `{"EXIF:Make": "Canon", "File:Size": "10"}` with `"EXIF"` keeps the first entry only. */
  lemma FilterExample()
    ensures FilterMetadata([("EXIF:Make", "Canon"), ("File:Size", "10")], Some("EXIF"))
         == [("EXIF:Make", "Canon")]
  {
    var m := [("EXIF:Make", "Canon"), ("File:Size", "10")];
    assert OccursAt("EXIF", "EXIF:Make", 0);
    ContainsIsSubstring("EXIF:Make", "EXIF");
    NotInFileSize();
    ContainsIsSubstring("File:Size", "EXIF");
    FilterMetadataIsKeyFilter(m, Some("EXIF"));
    KeyFilterAppend([m[0]], [m[1]], "EXIF");
    assert m == [m[0]] + [m[1]];
  }
}

/** The name under which an uploaded image is kept on disk: the part of the
    original name before the first '.', as base 64 of its UTF-8 bytes, then
    '.', then the part between the first and the second '.'. */
module Filenames {
  import opened Wrappers
  import opened Strings
  import Utf8
  import Base64

  /** The text up to the first '.', or all of `s`. */
  function Field(s: string): string
  {
    s[..IndexOf(s, '.')]
  }

  /** A field holds no '.' and starts `s`. */
  lemma FieldShape(s: string)
    ensures '.' !in Field(s)
    ensures |Field(s)| <= |s| && Field(s) == s[..|Field(s)|]
  {
    IndexOfIsFirst(s, '.');
  }

  /** The text after the first '.'. */
  function AfterDot(s: string): (r: string)
    requires IndexOf(s, '.') < |s|
    ensures |r| < |s|
  {
    s[IndexOf(s, '.') + 1..]
  }

  /** A text with a '.' is its first field, the '.', and the text after it. */
  lemma AroundDot(s: string)
    requires IndexOf(s, '.') < |s|
    ensures s == Field(s) + "." + AfterDot(s)
  {
    var i := IndexOf(s, '.');
    assert s == s[..i] + [s[i]] + s[i + 1..];
  }

  /** Every '.'-separated field of `s`, empty ones included. */
  function SplitAll(s: string): (r: seq<string>)
    ensures |r| >= 1
    decreases |s|
  {
    if IndexOf(s, '.') == |s| then [s] else [Field(s)] + SplitAll(AfterDot(s))
  }

  /** The first field of the split is the text up to the first '.'. */
  lemma SplitAllHead(s: string)
    ensures SplitAll(s)[0] == Field(s)
  {
    if IndexOf(s, '.') == |s| {
      assert s[..|s|] == s;
    }
  }

  /** The fields joined back with '.'. */
  function Join(parts: seq<string>): string
  {
    if |parts| == 0 then ""
    else if |parts| == 1 then parts[0]
    else parts[0] + "." + Join(parts[1..])
  }

  /** Splitting loses nothing: joining the fields gives the text back. */
  lemma {:induction false} JoinSplitAll(s: string)
    ensures Join(SplitAll(s)) == s
    decreases |s|
  {
    if IndexOf(s, '.') < |s| {
      var rest := SplitAll(AfterDot(s));
      JoinSplitAll(AfterDot(s));
      SplitAllCons(s);
      assert ([Field(s)] + rest)[1..] == rest;
      AroundDot(s);
    } else {
      assert s[..|s|] == s;
    }
  }

  /** `parts` without its trailing empty strings. */
  function DropTrailingEmpty(parts: seq<string>): (r: seq<string>)
    ensures |r| <= |parts| && r == parts[..|r|]
    ensures |r| > 0 ==> r[|r| - 1] != ""
    ensures forall i :: |r| <= i < |parts| ==> parts[i] == ""
  {
    if |parts| == 0 then []
    else if parts[|parts| - 1] == "" then DropTrailingEmpty(parts[..|parts| - 1])
    else parts
  }

  /** `String.split("\\.")`: a text without '.' is its own only field;
      otherwise the fields, with trailing empty ones removed. */
  function SplitOnDots(s: string): (r: seq<string>)
  {
    if '.' !in s then [s] else DropTrailingEmpty(SplitAll(s))
  }

  /** Nothing but '.' characters (or nothing at all). */
  predicate AllDots(s: string)
  {
    forall j :: 0 <= j < |s| ==> s[j] == '.'
  }

  /** The fields of a text are all empty exactly when it is all dots. */
  lemma {:induction false} SplitAllEmpty(s: string)
    ensures (forall k :: 0 <= k < |SplitAll(s)| ==> SplitAll(s)[k] == "") <==> AllDots(s)
    decreases |s|
  {
    var i := IndexOf(s, '.');
    if i < |s| {
      var t := AfterDot(s);
      assert t == s[i + 1..];
      SplitAllEmpty(t);
      SplitAllCons(s);
      if i == 0 {
        assert AllDots(s) <==> AllDots(t) by {
          assert forall j :: 0 < j < |s| ==> s[j] == t[j - 1];
        }
        var all, rest := SplitAll(s), SplitAll(t);
        assert forall k :: 1 <= k < |all| ==> all[k] == rest[k - 1];
        assert forall k :: 0 <= k < |rest| ==> rest[k] == all[k + 1];
      } else {
        assert s[0] != '.';
        assert |SplitAll(s)[0]| == i;
      }
    } else if |s| > 0 {
      assert SplitAll(s) == [s];
      assert s[0] != '.';
      assert SplitAll(s)[0] != "";
    }
  }

  /** The file name has an extension: a character other than '.' follows the first '.'. */
  predicate HasExtension(filename: string)
  {
    exists j :: IndexOf(filename, '.') < j < |filename| && filename[j] != '.'
  }

  lemma HasExtensionAfterDot(filename: string)
    requires IndexOf(filename, '.') < |filename|
    ensures HasExtension(filename) <==> !AllDots(AfterDot(filename))
  {
    var i := IndexOf(filename, '.');
    var t := AfterDot(filename);
    assert t == filename[i + 1..];
    assert forall j :: i < j < |filename| ==> filename[j] == t[j - i - 1];
    assert forall k :: 0 <= k < |t| ==> t[k] == filename[k + i + 1];
  }

  /** Dropping trailing empty strings keeps two entries exactly when a
      non-empty one follows the first, and none exactly when all are empty. */
  lemma DropTrailingEmptyLength(parts: seq<string>)
    ensures |DropTrailingEmpty(parts)| >= 2 <==> exists k :: 1 <= k < |parts| && parts[k] != ""
    ensures |DropTrailingEmpty(parts)| == 0 <==> forall k :: 0 <= k < |parts| ==> parts[k] == ""
  {
    var r := DropTrailingEmpty(parts);
    if |r| >= 2 {
      assert parts[|r| - 1] == r[|r| - 1];
    }
    if |r| > 0 {
      assert parts[|r| - 1] == r[|r| - 1];
    }
  }

  /** The fields of a text that has a '.': the one before it, then those of the rest. */
  lemma SplitAllCons(s: string)
    requires IndexOf(s, '.') < |s|
    ensures SplitAll(s) == [Field(s)] + SplitAll(AfterDot(s))
  {
  }

  /** Some entry after the first is non-empty exactly when some entry of
      the tail is. */
  lemma LaterEntryNonEmpty(first: string, rest: seq<string>)
    ensures (exists k :: 1 <= k < |[first] + rest| && ([first] + rest)[k] != "")
      <==> (exists k :: 0 <= k < |rest| && rest[k] != "")
  {
    var all := [first] + rest;
    if exists k :: 1 <= k < |all| && all[k] != "" {
      var k :| 1 <= k < |all| && all[k] != "";
      assert rest[k - 1] != "";
    }
    if exists k :: 0 <= k < |rest| && rest[k] != "" {
      var k :| 0 <= k < |rest| && rest[k] != "";
      assert all[k + 1] != "";
    }
  }

  /** Some field after the first is non-empty exactly when the name has an extension. */
  lemma LaterFieldNonEmpty(filename: string)
    requires IndexOf(filename, '.') < |filename|
    ensures (exists k :: 1 <= k < |SplitAll(filename)| && SplitAll(filename)[k] != "") <==> HasExtension(filename)
  {
    var t := AfterDot(filename);
    SplitAllCons(filename);
    LaterEntryNonEmpty(Field(filename), SplitAll(t));
    SplitAllEmpty(t);
    HasExtensionAfterDot(filename);
  }

  /** With a '.' in the name, the split is the fields without the trailing
      empty ones. */
  lemma SplitOnDotsWithDot(filename: string)
    requires IndexOf(filename, '.') < |filename|
    ensures SplitOnDots(filename) == DropTrailingEmpty(SplitAll(filename))
  {
    assert filename[IndexOf(filename, '.')] == '.';
  }

  /** A name with a '.' splits into two fields or more exactly when it has an extension. */
  lemma SplitOnDotsLength(filename: string)
    requires IndexOf(filename, '.') < |filename|
    ensures |SplitOnDots(filename)| >= 2 <==> HasExtension(filename)
  {
    SplitOnDotsWithDot(filename);
    DropTrailingEmptyLength(SplitAll(filename));
    LaterFieldNonEmpty(filename);
  }

  /** When a name with a '.' splits into two fields or more, the first two
      are the text before the first '.' and the first field of the rest. */
  lemma SplitOnDotsFirstTwo(filename: string)
    requires IndexOf(filename, '.') < |filename|
    requires |SplitOnDots(filename)| >= 2
    ensures SplitOnDots(filename)[0] == Field(filename)
    ensures SplitOnDots(filename)[1] == Field(AfterDot(filename))
  {
    SplitOnDotsWithDot(filename);
    SplitAllCons(filename);
    SplitAllHead(AfterDot(filename));
  }

  /** A name with a '.' splits into nothing exactly when it is all dots. */
  lemma SplitOnDotsNone(filename: string)
    requires IndexOf(filename, '.') < |filename|
    ensures |SplitOnDots(filename)| == 0 <==> AllDots(filename)
  {
    SplitOnDotsWithDot(filename);
    DropTrailingEmptyLength(SplitAll(filename));
    SplitAllEmpty(filename);
  }

  /** What `split("\\.")` yields for a file name: at least two fields exactly
      when the name has an extension; then the first is the text before the
      first '.', the second the text between the first and the second '.'. */
  lemma SplitOnDotsFields(filename: string)
    ensures |SplitOnDots(filename)| >= 2 <==> HasExtension(filename)
    ensures |SplitOnDots(filename)| >= 2 ==>
      && SplitOnDots(filename)[0] == Field(filename)
      && SplitOnDots(filename)[1] == Field(AfterDot(filename))
    ensures |SplitOnDots(filename)| == 0 <==> |filename| > 0 && AllDots(filename)
  {
    if IndexOf(filename, '.') < |filename| {
      SplitOnDotsLength(filename);
      if |SplitOnDots(filename)| >= 2 {
        SplitOnDotsFirstTwo(filename);
      }
      SplitOnDotsNone(filename);
    } else {
      IndexOfIsFirst(filename, '.');
      assert '.' !in filename;
      assert |filename| > 0 ==> !AllDots(filename);
    }
  }

  /** The failure of `parts[index]` on an array of `length` elements. */
  function OutOfBounds(index: nat, length: nat): Failure
  {
    Failure(IndexOutOfBounds, "Index " + NatToString(index) + " out of bounds for length " + NatToString(length))
  }

  /** The name on disk, as `uploadPostImage` and `deleteImage` both compute it
      from the original name; reading `parts[0]` or `parts[1]` past the end
      of the split fails. */
  function DiskName(filename: string): (r: Result<string>)
  {
    var parts := SplitOnDots(filename);
    if |parts| == 0 then Err(OutOfBounds(0, 0))
    else if |parts| == 1 then Err(OutOfBounds(1, 1))
    else Ok(Base64.Encode(Utf8.Encode(parts[0])) + "." + parts[1])
  }

  /** A disk name exists exactly for names with an extension; it is built from
      the name before the first '.' and the first extension. */
  lemma DiskNameFields(filename: string)
    ensures DiskName(filename).Ok? <==> HasExtension(filename)
    ensures DiskName(filename).Ok? ==>
      DiskName(filename).value ==
        Base64.Encode(Utf8.Encode(Field(filename))) + "." + Field(AfterDot(filename))
    ensures DiskName(filename).Err? ==>
      DiskName(filename).error == (if |filename| > 0 && AllDots(filename) then OutOfBounds(0, 0) else OutOfBounds(1, 1))
  {
    SplitOnDotsFields(filename);
  }

  /** The original name and extension read back from a disk name: base 64 text
      up to the first '.', the rest after it. */
  function ParseDiskName(diskName: string): Option<(string, string)>
  {
    var k := IndexOf(diskName, '.');
    if k == |diskName| then None
    else
      match Base64.Decode(diskName[..k])
      case None => None
      case Some(bytes) =>
        match Utf8.Decode(bytes)
        case None => None
        case Some(name) => Some((name, AfterDot(diskName)))
  }

  /** A text made of a dot-free part, a '.', and anything: the first '.' is the one in the middle. */
  lemma SplitAtFirstDot(a: string, b: string)
    requires '.' !in a
    ensures IndexOf(a + "." + b, '.') == |a|
    ensures Field(a + "." + b) == a && AfterDot(a + "." + b) == b
  {
    var d := a + "." + b;
    assert forall j :: 0 <= j < |a| ==> d[j] == a[j];
    IndexOfAt(d, '.', |a|);
  }

  /** Parsing a disk name gives back the name and the extension it was made of. */
  lemma ParseDiskNameRoundTrip(filename: string)
    requires HasExtension(filename)
    ensures DiskName(filename).Ok?
    ensures ParseDiskName(DiskName(filename).value) ==
      Some((Field(filename), Field(AfterDot(filename))))
  {
    DiskNameFields(filename);
    var name := Field(filename);
    var encoded := Base64.Encode(Utf8.Encode(name));
    Base64.NoDot(Utf8.Encode(name));
    SplitAtFirstDot(encoded, Field(AfterDot(filename)));
    Base64.DecodeEncode(Utf8.Encode(name));
    Utf8.DecodeEncode(name);
  }

  /** Two names share a disk name exactly when they agree up to the second '.':
      whatever follows it is not part of the name on disk. */
  lemma SameDiskName(f: string, g: string)
    requires HasExtension(f) && HasExtension(g)
    ensures DiskName(f) == DiskName(g) <==>
      Field(f) == Field(g) && Field(AfterDot(f)) == Field(AfterDot(g))
  {
    ParseDiskNameRoundTrip(f);
    ParseDiskNameRoundTrip(g);
    DiskNameFields(f);
    DiskNameFields(g);
  }

  lemma EncodedA()
    ensures Base64.Encode(Utf8.Encode("a")) == "YQ=="
  {
    assert Utf8.Encode("a") == [97];
    assert Base64.Symbol(24) == 'Y' && Base64.Symbol(16) == 'Q';
  }

  lemma FieldsOfPng()
    ensures IndexOf("a.png", '.') == 1 && HasExtension("a.png")
    ensures Field("a.png") == "a" && Field(AfterDot("a.png")) == "png"
  {
    var f := "a.png";
    assert IndexOf(f, '.') == 1 by { assert f[0] != '.' && f[1] == '.'; }
    assert f[2] != '.';
    assert f[2..] == "png";
    assert IndexOf("png", '.') == 3;
  }

  lemma FieldsOfBak()
    ensures IndexOf("a.png.bak", '.') == 1 && HasExtension("a.png.bak")
    ensures Field("a.png.bak") == "a" && Field(AfterDot("a.png.bak")) == "png"
  {
    var g := "a.png.bak";
    assert IndexOf(g, '.') == 1 by { assert g[0] != '.' && g[1] == '.'; }
    assert g[2] != '.';
    assert g[2..] == "png.bak";
    assert IndexOf("png.bak", '.') == 3;
  }

  lemma DiskNameOfPng()
    ensures DiskName("a.png") == Ok("YQ==.png")
  {
    FieldsOfPng();
    EncodedA();
    DiskNameFields("a.png");
    assert "YQ==" + "." + "png" == "YQ==.png";
  }

  /** "a.png" and "a.png.bak" are stored under the same disk name. */
  lemma DiskNameCollision()
    ensures DiskName("a.png") == DiskName("a.png.bak") == Ok("YQ==.png")
  {
    FieldsOfPng();
    FieldsOfBak();
    SameDiskName("a.png", "a.png.bak");
    DiskNameOfPng();
  }
}

/**
 get_file_type_icon: a table from lower-cased extensions to icons, with the
 page icon as the default. Icons are abstract tokens named after the glyphs.
 */
module FileIcons {

  datatype Icon = Page | RedBook | GreenBook | BarChart | FramedPicture | MusicalNote | MovieCamera | Package | Gear

  /** The extension table, keyed by lower-case extensions with their dot. */
  const Icons: map<string, Icon> := map[
    ".txt" := Page,
    ".pdf" := RedBook,
    ".doc" := GreenBook,
    ".docx" := GreenBook,
    ".xls" := BarChart,
    ".xlsx" := BarChart,
    ".jpg" := FramedPicture,
    ".jpeg" := FramedPicture,
    ".png" := FramedPicture,
    ".mp3" := MusicalNote,
    ".mp4" := MovieCamera,
    ".zip" := Package,
    ".exe" := Gear
  ]

  /** The icon for extensions the table does not list. */
  const DefaultIcon: Icon := Page

  function LowerChar(c: char): (d: char)
    ensures 'A' <= c <= 'Z' ==> 'a' <= d <= 'z'
    ensures !('A' <= c <= 'Z') ==> d == c
  {
    if 'A' <= c <= 'Z' then (c as int - 'A' as int + 'a' as int) as char else c
  }

  /** ASCII lower-casing: every letter A-Z becomes its lower-case form, everything else stays. */
  function Lower(s: string): (r: string)
    ensures |r| == |s|
    ensures forall i :: 0 <= i < |s| ==> r[i] == LowerChar(s[i])
  {
    if s == [] then [] else [LowerChar(s[0])] + Lower(s[1..])
  }

  /**
   get_file_type_icon: the icon is always one the table lists, and it is the
   page icon exactly for .txt and for extensions the table does not list.
   */
  function IconFor(fileType: string): (r: Icon)
    ensures r in Icons.Values
    ensures r == Page <==> Lower(fileType) == ".txt" || Lower(fileType) !in Icons
  {
    var key := Lower(fileType);
    if key in Icons then Icons[key]
    else
      assert Icons[".txt"] == DefaultIcon;
      DefaultIcon
  }

  /** Lower-casing twice is lower-casing once. */
  lemma LowerIdempotent(s: string)
    ensures Lower(Lower(s)) == Lower(s)
  {
  }

  /** The lookup ignores case: an extension gets the icon of its lower-cased form. */
  lemma IconIgnoresCase(t: string)
    ensures IconFor(t) == IconFor(Lower(t))
  {
    var key := Lower(t);
    LowerIdempotent(t);
    assert Lower(key) == key;
  }

  /** An extension the table does not list gets the default icon, which is the icon of .txt. */
  lemma UnlistedGetsTextIcon(t: string)
    requires Lower(t) !in Icons
    ensures IconFor(t) == DefaultIcon == Icons[".txt"]
  {
  }

  /** Variant extensions share icons: every spelling of .doc or .docx gets the green book. */
  lemma WordVariantsShareIcon(t: string)
    requires Lower(t) in {".doc", ".docx"}
    ensures IconFor(t) == GreenBook
  {
  }

  /** Every spelling of .xls or .xlsx gets the bar chart. */
  lemma SheetVariantsShareIcon(t: string)
    requires Lower(t) in {".xls", ".xlsx"}
    ensures IconFor(t) == BarChart
  {
  }

  /** Every spelling of .jpg, .jpeg or .png gets the framed picture. */
  lemma ImageVariantsShareIcon(t: string)
    requires Lower(t) in {".jpg", ".jpeg", ".png"}
    ensures IconFor(t) == FramedPicture
  {
  }
}

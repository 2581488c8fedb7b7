/**
  The icon shown next to each event file on the dashboard: the file type is
  lower-cased and looked up in a fixed table, with a paperclip for anything
  missing or unknown.
 */
module EventFiles {
  import opened Wrappers
  import opened Strings

  const PAPERCLIP: string := "\U{1F4CE}"
  const PAGE_FACING_UP: string := "\U{1F4C4}"
  const MEMO: string := "\U{1F4DD}"
  const BAR_CHART: string := "\U{1F4CA}"
  /** FRAME WITH PICTURE followed by VARIATION SELECTOR-16. */
  const FRAMED_PICTURE: string := "\U{1F5BC}\U{FE0F}"
  const PACKAGE: string := "\U{1F4E6}"

  /** `fileIcons`. */
  const FILE_ICONS: map<string, string> := map[
    "pdf" := PAGE_FACING_UP,
    "doc" := MEMO, "docx" := MEMO,
    "xls" := BAR_CHART, "xlsx" := BAR_CHART, "ppt" := BAR_CHART, "pptx" := BAR_CHART,
    "png" := FRAMED_PICTURE, "jpg" := FRAMED_PICTURE, "jpeg" := FRAMED_PICTURE,
    "zip" := PACKAGE]

  /**
    The all-lower-case property names every object literal inherits from
    `Object.prototype`; after `toLowerCase` no other inherited name can be matched.
   */
  const INHERITED_LOWERCASE: set<string> := {"constructor", "__proto__"}

  /** What indexing `fileIcons` yields: one of its strings, or an inherited member that is not a string. */
  datatype Lookup = Icon(text: string) | PrototypeMember(name: string)

  /**
    `getIcon` as written: `fileIcons[ext]` also finds the members inherited
    from `Object.prototype`, which are truthy and are returned instead of an icon.
   */
  function GetIconAsWritten(fileType: Option<string>): (r: Lookup)
    ensures r.PrototypeMember? <==> Truthy(fileType) && ToLower(fileType.value) in INHERITED_LOWERCASE
  {
    if !Truthy(fileType) then Icon(PAPERCLIP)
    else
      var ext := ToLower(fileType.value);
      if ext in FILE_ICONS && FILE_ICONS[ext] != "" then Icon(FILE_ICONS[ext])
      else if ext in INHERITED_LOWERCASE then PrototypeMember(ext)
      else Icon(PAPERCLIP)
  }

  /** A file of type "constructor" gets `Object` itself as its icon. */
  lemma AsWrittenReturnsConstructor()
    ensures GetIconAsWritten(Some("constructor")) == PrototypeMember("constructor")
  {
    ToLowerOfLower("constructor");
    ConstructorIsNoKey();
  }

  lemma ConstructorIsNoKey()
    ensures "constructor" !in FILE_ICONS
  {
    assert forall k | k in FILE_ICONS :: |k| <= 4;
  }

  /** `getIcon` consulting only the table's own keys. */
  function GetIcon(fileType: Option<string>): (r: string)
    ensures r == PAPERCLIP || r in FILE_ICONS.Values
    ensures !Truthy(fileType) ==> r == PAPERCLIP
  {
    if !Truthy(fileType) then PAPERCLIP
    else
      var ext := ToLower(fileType.value);
      if ext in FILE_ICONS && FILE_ICONS[ext] != "" then FILE_ICONS[ext] else PAPERCLIP
  }

  /** Outside the two inherited names the program as written shows the same icon. */
  lemma AsWrittenAgrees(fileType: Option<string>)
    requires !Truthy(fileType) || ToLower(fileType.value) !in INHERITED_LOWERCASE
    ensures GetIconAsWritten(fileType) == Icon(GetIcon(fileType))
  {
  }

  /** The lookup ignores case. */
  lemma GetIconIgnoresCase(s: string)
    ensures GetIcon(Some(s)) == GetIcon(Some(ToLower(s)))
  {
    ToLowerIdempotent(s);
  }

  lemma UpperCasePdf()
    ensures GetIcon(Some("PDF")) == GetIcon(Some("pdf")) == PAGE_FACING_UP
  {
    assert ToLower("PDF") == "pdf";
    assert ToLower("pdf") == "pdf";
  }

  /** A string without upper-case ASCII letters is its own lower case. */
  lemma ToLowerOfLower(s: string)
    requires forall i :: 0 <= i < |s| ==> !('A' <= s[i] <= 'Z')
    ensures ToLower(s) == s
  {
  }

  /** Every key of the table shows its own icon. */
  lemma EveryKeyMaps()
    ensures forall k | k in FILE_ICONS :: GetIcon(Some(k)) == FILE_ICONS[k]
  {
    forall k | k in FILE_ICONS ensures GetIcon(Some(k)) == FILE_ICONS[k] {
      ToLowerOfLower(k);
    }
  }

  /** A type whose lower case is not a key shows the paperclip. */
  lemma UnknownIsPaperclip(s: string)
    requires ToLower(s) !in FILE_ICONS
    ensures GetIcon(Some(s)) == PAPERCLIP
  {
  }
}

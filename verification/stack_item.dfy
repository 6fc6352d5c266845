/** The downloads stack (`StackItem`): the icon chosen for a file, and the
    list of entries the popup shows: hidden files left out, newest first,
    at most twenty. Reading the folder is outside the model: a refresh
    starts from the listing it returned (`None` when it could not be read),
    one item per directory entry with its name, kind and modification time
    in whole seconds (`None` when the metadata or the time is unavailable). */
module StackItem {
  import opened Wrappers
  import opened Text
  import opened Sorting

  datatype StackViewMode = Fan | Grid | List

  /** `StackViewMode::default()`. */
  const DefaultViewMode: StackViewMode := Fan

  datatype Listed = Listed(path: string, name: string, isDirectory: bool, modified: Option<int>)

  datatype StackEntry = StackEntry(name: string, path: string, iconName: string, isDirectory: bool, modified: Option<int>)

  const MaxItems: nat := 20

  // ------------------------------------------------------------ icons

  /** The position of the last '.' in `s`. */
  function LastDot(s: string): (r: Option<nat>)
    ensures r.Some? ==> r.value < |s| && s[r.value] == '.' && forall k :: r.value < k < |s| ==> s[k] != '.'
    ensures r.None? ==> forall k :: 0 <= k < |s| ==> s[k] != '.'
  {
    if s == [] then None
    else if s[|s| - 1] == '.' then Some(|s| - 1)
    else LastDot(s[..|s| - 1])
  }

  /** `Path::extension` of a file name: what follows its last '.', unless
      that '.' is the name's first character or there is none. */
  function Extension(name: string): (r: Option<string>)
    ensures r.Some? ==> exists i :: 0 < i < |name| && name[i] == '.' && r.value == name[i + 1..]
    ensures r.Some? ==> forall k :: 0 <= k < |r.value| ==> r.value[k] != '.'
  {
    match LastDot(name)
    case None => None
    case Some(i) =>
      if i == 0 then None
      else Some(name[i + 1..])
  }

  /** The icon-name table, keyed by lower-case extension. */
  function IconForExtension(ext: string): string {
    match ext
    case "pdf" => "application-pdf"
    case "zip" => "package-x-generic"
    case "tar" => "package-x-generic"
    case "gz" => "package-x-generic"
    case "xz" => "package-x-generic"
    case "7z" => "package-x-generic"
    case "rar" => "package-x-generic"
    case "png" => "image-x-generic"
    case "jpg" => "image-x-generic"
    case "jpeg" => "image-x-generic"
    case "gif" => "image-x-generic"
    case "webp" => "image-x-generic"
    case "svg" => "image-x-generic"
    case "mp3" => "audio-x-generic"
    case "wav" => "audio-x-generic"
    case "flac" => "audio-x-generic"
    case "ogg" => "audio-x-generic"
    case "m4a" => "audio-x-generic"
    case "mp4" => "video-x-generic"
    case "mkv" => "video-x-generic"
    case "avi" => "video-x-generic"
    case "mov" => "video-x-generic"
    case "webm" => "video-x-generic"
    case "doc" => "x-office-document"
    case "docx" => "x-office-document"
    case "odt" => "x-office-document"
    case "xls" => "x-office-spreadsheet"
    case "xlsx" => "x-office-spreadsheet"
    case "ods" => "x-office-spreadsheet"
    case "ppt" => "x-office-presentation"
    case "pptx" => "x-office-presentation"
    case "odp" => "x-office-presentation"
    case "txt" => "text-x-generic"
    case "md" => "text-x-generic"
    case "rst" => "text-x-generic"
    case "rs" => "text-x-script"
    case "py" => "text-x-script"
    case "js" => "text-x-script"
    case "ts" => "text-x-script"
    case "c" => "text-x-script"
    case "cpp" => "text-x-script"
    case "h" => "text-x-script"
    case "java" => "text-x-script"
    case "html" => "text-html"
    case "css" => "text-html"
    case "xml" => "text-html"
    case "json" => "text-html"
    case "deb" => "application-x-executable"
    case "rpm" => "application-x-executable"
    case "appimage" => "application-x-executable"
    case _ => "text-x-generic"
  }

  /** `get_icon_for_file`: "folder" for a directory; otherwise the table's
      entry for the lower-cased extension, the missing extension counting
      as "". */
  function IconForFile(name: string, isDirectory: bool): (r: string)
    ensures isDirectory ==> r == "folder"
    ensures !isDirectory && Extension(name).None? ==> r == "text-x-generic"
  {
    if isDirectory then "folder"
    else IconForExtension(Lower(Extension(name).GetOr("")))
  }

  /** A '.' with no '.' after it is the last one. */
  lemma LastDotAt(s: string, i: nat)
    requires i < |s| && s[i] == '.' && forall k :: i < k < |s| ==> s[k] != '.'
    ensures LastDot(s) == Some(i)
  {
  }

  lemma PdfIcon()
    ensures IconForFile("test.pdf", false) == "application-pdf"
  {
    LastDotAt("test.pdf", 4);
    assert "test.pdf"[5..] == "pdf";
    assert Lower("pdf") == "pdf";
  }

  lemma PngIcon()
    ensures IconForFile("test.png", false) == "image-x-generic"
  {
    LastDotAt("test.png", 4);
    assert "test.png"[5..] == "png";
    assert Lower("png") == "png";
  }

  lemma UpperCasePdfIcon()
    ensures IconForFile("REPORT.PDF", false) == "application-pdf"
  {
    LastDotAt("REPORT.PDF", 6);
    assert "REPORT.PDF"[7..] == "PDF";
    assert Lower("PDF") == "pdf";
  }

  /** The examples the dock's own tests check. */
  lemma IconExamples()
    ensures IconForFile("test.pdf", false) == "application-pdf"
    ensures IconForFile("test.png", false) == "image-x-generic"
    ensures IconForFile("folder", true) == "folder"
    ensures IconForFile("REPORT.PDF", false) == "application-pdf"
  {
    PdfIcon();
    PngIcon();
    UpperCasePdfIcon();
  }

  /** The last '.' is at the same place in the lower-cased name. */
  lemma {:induction false} LastDotLower(s: string)
    ensures LastDot(Lower(s)) == LastDot(s)
  {
    if s != [] {
      var n := |s| - 1;
      assert Lower(s)[..n] == Lower(s[..n]);
      LastDotLower(s[..n]);
    }
  }

  /** The extension is matched case-insensitively: names that lower-case
      alike get the same icon. */
  lemma IconIgnoresCase(a: string, b: string, isDirectory: bool)
    requires Lower(a) == Lower(b)
    ensures IconForFile(a, isDirectory) == IconForFile(b, isDirectory)
  {
    if !isDirectory {
      ExtensionLower(a);
      ExtensionLower(b);
      LowerIdempotent(Extension(a).GetOr(""));
      LowerIdempotent(Extension(b).GetOr(""));
    }
  }

  lemma ExtensionLower(s: string)
    ensures Lower(Extension(Lower(s)).GetOr("")) == Lower(Extension(s).GetOr(""))
  {
    LastDotLower(s);
    match LastDot(s)
    case None =>
    case Some(i) =>
      if i != 0 {
        assert Lower(s)[i + 1..] == Lower(s[i + 1..]);
        LowerIdempotent(s[i + 1..]);
      }
  }

  // ------------------------------------------------------------ the listing

  /** Names starting with '.' are hidden. */
  predicate IsHidden(item: Listed) {
    StartsWith(item.name, ".")
  }

  function EntryOf(item: Listed): StackEntry {
    StackEntry(item.name, item.path, IconForFile(item.name, item.isDirectory), item.isDirectory, item.modified)
  }

  /** The entries built from the listing, hidden names left out, in listing order. */
  function Visible(listing: seq<Listed>): (r: seq<StackEntry>)
    ensures |r| <= |listing|
    ensures forall e :: e in r ==> !StartsWith(e.name, ".")
    ensures forall item :: item in listing && !IsHidden(item) ==> EntryOf(item) in r
  {
    if listing == [] then []
    else
      var last := listing[|listing| - 1];
      Visible(listing[..|listing| - 1]) + (if IsHidden(last) then [] else [EntryOf(last)])
  }

  /** Newest first: `b.modified.cmp(&a.modified)`, where an absent time
      orders below every present one. */
  predicate NewerOrSame(a: StackEntry, b: StackEntry) {
    match (a.modified, b.modified)
    case (_, None) => true
    case (None, Some(_)) => false
    case (Some(x), Some(y)) => x >= y
  }

  function NewestFirst(): (StackEntry, StackEntry) -> bool {
    (a, b) => NewerOrSame(a, b)
  }

  lemma NewestFirstTotalPreorder()
    ensures TotalPreorder(NewestFirst())
  {
  }

  /** The list a refresh stores: the visible entries, newest first (stably),
      cut to `maxItems`; an unreadable folder gives an empty list. */
  function Refreshed(listing: Option<seq<Listed>>, maxItems: nat): (r: seq<StackEntry>)
    ensures |r| <= maxItems
    ensures listing.None? ==> r == []
    ensures forall e :: e in r ==> !StartsWith(e.name, ".")
    ensures Sorted(NewestFirst(), r)
  {
    match listing
    case None => []
    case Some(items) =>
      NewestFirstTotalPreorder();
      var sorted := Sort(NewestFirst(), Visible(items));
      forall e | e in sorted ensures e in Visible(items) {
        SortMembers(NewestFirst(), Visible(items), e);
      }
      if |sorted| <= maxItems then sorted else sorted[..maxItems]
  }

  /** Undated entries come after every dated one. */
  lemma UndatedLast(listing: Option<seq<Listed>>, maxItems: nat, i: nat, j: nat)
    requires var r := Refreshed(listing, maxItems);
      i < j < |r| && r[i].modified.None?
    ensures Refreshed(listing, maxItems)[j].modified.None?
  {
    var r := Refreshed(listing, maxItems);
    assert NewestFirst()(r[i], r[j]);
  }

  /** Entries with the same modification time keep their listing order. */
  lemma SameTimeListingOrder(items: seq<Listed>, maxItems: nat, y: StackEntry)
    requires |Visible(items)| <= maxItems
    ensures Tied(NewestFirst(), Refreshed(Some(items), maxItems), y) == Tied(NewestFirst(), Visible(items), y)
  {
    NewestFirstTotalPreorder();
    SortStable(NewestFirst(), Visible(items), y);
  }

  /** When no more than `maxItems` entries are visible, all of them are kept. */
  lemma FewEntriesAllKept(items: seq<Listed>, maxItems: nat, item: Listed)
    requires |Visible(items)| <= maxItems && item in items && !IsHidden(item)
    ensures EntryOf(item) in Refreshed(Some(items), maxItems)
  {
    RefreshedWhole(items, maxItems);
    SortMembers(NewestFirst(), Visible(items), EntryOf(item));
  }

  lemma RefreshedWhole(items: seq<Listed>, maxItems: nat)
    requires |Visible(items)| <= maxItems
    ensures TotalPreorder(NewestFirst())
    ensures Refreshed(Some(items), maxItems) == Sort(NewestFirst(), Visible(items))
  {
    NewestFirstTotalPreorder();
  }

  lemma RefreshedCut(items: seq<Listed>, maxItems: nat)
    requires |Visible(items)| > maxItems
    ensures TotalPreorder(NewestFirst())
    ensures Refreshed(Some(items), maxItems) == Sort(NewestFirst(), Visible(items))[..maxItems]
  {
    NewestFirstTotalPreorder();
  }

  /** A kept entry is never older than a visible entry that was cut off. */
  lemma CutEntriesAreOlder(items: seq<Listed>, maxItems: nat, e: StackEntry, i: nat)
    requires |Visible(items)| > maxItems
    requires e in Visible(items) && e !in Refreshed(Some(items), maxItems)
    requires i < |Refreshed(Some(items), maxItems)|
    ensures NewerOrSame(Refreshed(Some(items), maxItems)[i], e)
  {
    RefreshedCut(items, maxItems);
    var sorted := Sort(NewestFirst(), Visible(items));
    SortMembers(NewestFirst(), Visible(items), e);
    SortedCutOlder(NewestFirst(), sorted, maxItems, e, i);
  }

  // ------------------------------------------------------------ the item

  class StackItem {
    var entries: seq<StackEntry>
    var viewMode: StackViewMode
    var maxItems: nat

    /** `new`: the default view mode, twenty items, and a first refresh. */
    constructor (listing: Option<seq<Listed>>)
      ensures viewMode == Fan && maxItems == MaxItems
      ensures entries == Refreshed(listing, MaxItems)
    {
      viewMode := DefaultViewMode;
      maxItems := MaxItems;
      entries := [];
      new;
      RefreshEntries(listing);
    }

    /** `refresh_entries`, and `refresh_entries_static` run by the folder
        monitor, which does the same: build the visible entries, sort them
        newest first, truncate, store. */
    method RefreshEntries(listing: Option<seq<Listed>>)
      modifies this
      ensures entries == Refreshed(listing, maxItems)
      ensures viewMode == old(viewMode) && maxItems == old(maxItems)
    {
      var built: seq<StackEntry> := [];
      if listing.Some? {
        var items := listing.value;
        for i := 0 to |items|
          invariant built == Visible(items[..i])
        {
          assert items[..i + 1][..i] == items[..i];
          var item := items[i];
          if StartsWith(item.name, ".") {
            continue;
          }
          var icon := IconForFile(item.name, item.isDirectory);
          built := built + [StackEntry(item.name, item.path, icon, item.isDirectory, item.modified)];
        }
        assert items[..|items|] == items;
        NewestFirstTotalPreorder();
        built := Sort(NewestFirst(), built);
        if |built| > maxItems {
          built := built[..maxItems];
        }
      }
      entries := built;
    }

    /** `set_view_mode`. */
    method SetViewMode(mode: StackViewMode)
      modifies this
      ensures viewMode == mode
      ensures entries == old(entries) && maxItems == old(maxItems)
    {
      viewMode := mode;
    }
  }
}

/** The category table: insertion-ordered category names with their
    extension lists, and the lookup that routes an extension to a category. */
module Categories {

  datatype Category = Category(name: string, extensions: seq<string>)

  /** Categories in insertion order; the order decides which category wins
      when an extension is listed twice. */
  type Table = seq<Category>

  /** The category of every extension that no entry lists. */
  const Fallback: string := "Others"

  /** The table `FileManager.__init__` installs. */
  const DefaultTable: Table := [
    Category("Images", [".jpg", ".jpeg", ".png", ".gif", ".bmp", ".svg", ".webp", ".ico"]),
    Category("Videos", [".mp4", ".avi", ".mkv", ".mov", ".wmv", ".flv", ".webm"]),
    Category("Audio", [".mp3", ".wav", ".flac", ".aac", ".ogg", ".m4a", ".wma"]),
    Category("Documents", [".pdf", ".doc", ".docx", ".txt", ".rtf", ".odt", ".xls", ".xlsx", ".ppt", ".pptx"]),
    Category("Archives", [".zip", ".rar", ".7z", ".tar", ".gz", ".bz2"]),
    Category("Code", [".py", ".java", ".cpp", ".c", ".js", ".html", ".css", ".php", ".rb", ".go"]),
    Category("Executables", [".exe", ".msi", ".app", ".dmg", ".deb", ".rpm"]),
    Category("Others", [])
  ]

  /** The index of the first entry at or after `from` whose list holds ext,
      or |table| when there is none: the `for ... break` over the table. */
  function FirstMatch(table: Table, ext: string, from: nat): (k: nat)
    requires from <= |table|
    ensures from <= k <= |table|
    ensures k < |table| ==> ext in table[k].extensions
    ensures forall j :: from <= j < k ==> ext !in table[j].extensions
    decreases |table| - from
  {
    if from == |table| then from
    else if ext in table[from].extensions then from
    else FirstMatch(table, ext, from + 1)
  }

  /** The category a (lower-cased) extension is sorted into. */
  function Categorize(table: Table, ext: string): string {
    var k := FirstMatch(table, ext, 0);
    if k < |table| then table[k].name else Fallback
  }

  /** The first entry, in table order, that lists the extension decides. */
  lemma CategorizeFirstMatch(table: Table, ext: string, k: nat)
    requires k < |table| && ext in table[k].extensions
    requires forall j :: 0 <= j < k ==> ext !in table[j].extensions
    ensures Categorize(table, ext) == table[k].name
  {
  }

  /** An extension that no entry lists falls back to "Others". */
  lemma CategorizeFallback(table: Table, ext: string)
    requires forall j :: 0 <= j < |table| ==> ext !in table[j].extensions
    ensures Categorize(table, ext) == Fallback
  {
  }

  /** The lookup only ever answers with a name from the table or "Others". */
  lemma CategorizeRange(table: Table, ext: string)
    ensures Categorize(table, ext) == Fallback
         || exists j :: 0 <= j < |table| && table[j].name == Categorize(table, ext) && ext in table[j].extensions
  {
    var m := FirstMatch(table, ext, 0);
    if m < |table| {
      assert table[m].name == Categorize(table, ext) && ext in table[m].extensions;
    }
  }

  /** The lookup loop of the sort: the first category in table order whose
      list holds the extension, "Others" when none does. */
  method LookupCategory(table: Table, ext: string) returns (category: string)
    ensures category == Categorize(table, ext)
  {
    category := Fallback;
    var i := 0;
    while i < |table|
      invariant 0 <= i <= |table|
      invariant forall j :: 0 <= j < i ==> ext !in table[j].extensions
      decreases |table| - i
    {
      if ext in table[i].extensions {
        category := table[i].name;
        CategorizeFirstMatch(table, ext, i);
        return;
      }
      i := i + 1;
    }
    CategorizeFallback(table, ext);
  }
}

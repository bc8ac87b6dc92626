/** The build-time search indexer (build-tools/build-search-index.js): notepad entries first,
    then a depth-first walk of the `scripts` directory that turns README files of
    subdirectories and files with an indexable extension into entries, skipping whatever it
    cannot read. The file system is a tree value; the index is an array the walk appends to. */
module SearchIndexBuilder {
  import opened Common

  // ---------------------------------------------------------------------------------------
  // The file system

  /** What `readdir` gives for a directory: its items in listing order, or a failure. */
  datatype Listing = Listed(items: seq<Node>) | Unlistable

  /** One directory item, by what `stat` and `readFile` make of it. A file's content is None
      when reading it fails. A directory's `readme` is what `readFile(join(dir, 'README.md'))`
      gives, None when it fails: that read does not go through the listing, so it can succeed for
      a directory `readdir` cannot list, and a case-insensitive file system can answer it with a
      `readme.md`. `Unstattable` is an item whose `stat` fails, and `Special` one that is neither a
      file nor a directory. */
  datatype Node =
    | Dir(name: string, readme: Option<string>, listing: Listing)
    | File(name: string, content: Option<string>)
    | Unstattable(name: string)
    | Special(name: string)

  /** `join(dirPath, item)` for an item name as `readdir` returns it. */
  function FullPath(dirPath: string, item: string): string {
    dirPath + "/" + item
  }

  /** `basePath ? `${basePath}/${item}` : item`. */
  function RelativePath(basePath: string, item: string): string {
    if basePath == "" then item else basePath + "/" + item
  }

  /** The content of the first item of a listing named exactly `README.md`, when it is a readable
      file: what the directory's own `readme` read finds on a case-sensitive file system. */
  function ReadmeIn(items: seq<Node>): Option<string> {
    if items == [] then None
    else if items[0].name == "README.md" then
      (if items[0].File? then items[0].content else None)
    else ReadmeIn(items[1..])
  }

  // ---------------------------------------------------------------------------------------
  // Extensions

  /** The position of the last `c` in `s`, or -1. */
  function LastIndexOf(s: string, c: char): (r: int)
    ensures -1 <= r < |s|
    ensures r >= 0 ==> s[r] == c
    ensures forall j :: r < j < |s| ==> s[j] != c
  {
    if s == [] then -1
    else if s[|s| - 1] == c then |s| - 1
    else LastIndexOf(s[..|s| - 1], c)
  }

  /** Node's `path.extname` of a single path component: from the last dot to the end, except that
      a name without a dot, a name whose only dot leads it, and `..` have none. */
  function Extname(name: string): string {
    var dot := LastIndexOf(name, '.');
    if dot <= 0 || name == ".." then "" else name[dot..]
  }

  const INDEXED_EXTENSIONS: seq<string> := [".py", ".js", ".md", ".txt", ".json"]

  /** The entry types of the index. */
  datatype Kind = Notepad | Readme | Python | Markdown | JavaScript | PlainFile

  /** The `type` string each kind is written as. */
  function TypeName(k: Kind): string {
    match k
    case Notepad => "notepad"
    case Readme => "readme"
    case Python => "python"
    case Markdown => "markdown"
    case JavaScript => "javascript"
    case PlainFile => "file"
  }

  /** The type of an indexed file, from its lower-cased extension. */
  function KindOf(extension: string): Kind {
    if extension == ".py" then Python
    else if extension == ".md" then Markdown
    else if extension == ".js" then JavaScript
    else PlainFile
  }

  // ---------------------------------------------------------------------------------------
  // Entries

  /** One search-index record. Notepad records carry an id and tags; the others do not. */
  datatype Entry = Entry(kind: Kind, id: Option<string>, title: string, description: string,
                         content: string, tags: Option<seq<string>>, filePath: string,
                         url: string)

  /** The README record of a subdirectory. */
  function ReadmeEntry(fullPath: string, relativePath: string, item: string, content: string)
    : Entry
  {
    Entry(Readme, None, "README - " + item, "README file for " + item + " directory", content,
          None, FullPath(fullPath, "README.md"), "/browser/" + relativePath)
  }

  /** The record of an indexed file. */
  function FileEntry(dirPath: string, basePath: string, item: string, content: string): Entry {
    var kind := KindOf(AsciiLower(Extname(item)));
    Entry(kind, None, item,
          TypeName(kind) + " file in " + (if basePath == "" then "scripts" else basePath),
          content, None, FullPath(dirPath, item), "/browser/" + RelativePath(basePath, item))
  }

  /** `indexDirectory(dirPath, searchIndex, basePath)`: the records it appends. */
  function Walk(dirPath: string, listing: Listing, basePath: string): seq<Entry>
    decreases listing
  {
    match listing
    case Unlistable => []
    case Listed(items) => WalkItems(dirPath, items, basePath)
  }

  /** The records the loop over `items` appends, in listing order. */
  function WalkItems(dirPath: string, items: seq<Node>, basePath: string): seq<Entry>
    decreases items
  {
    if items == [] then []
    else ItemEntries(dirPath, items[0], basePath) + WalkItems(dirPath, items[1..], basePath)
  }

  /** The records one item contributes: for a directory its README record, if any, before
      everything inside it; for a readable file with an indexed extension one record; for
      anything else nothing. */
  function ItemEntries(dirPath: string, node: Node, basePath: string): seq<Entry>
    decreases node
  {
    var fullPath := FullPath(dirPath, node.name);
    var relativePath := RelativePath(basePath, node.name);
    match node
    case Dir(item, readme, listing) =>
      (match readme
       case Some(c) => [ReadmeEntry(fullPath, relativePath, item, c)]
       case None => [])
      + Walk(fullPath, listing, relativePath)
    case File(item, content) =>
      if AsciiLower(Extname(item)) in INDEXED_EXTENSIONS && content.Some?
      then [FileEntry(dirPath, basePath, item, content.value)]
      else []
    case Unstattable(_) => []
    case Special(_) => []
  }

  /** A notepad as `data/notepads.json` describes it. */
  datatype NotepadInfo = NotepadInfo(id: string, title: string, description: string,
                                     tags: Option<seq<string>>, filePath: string)

  /** The record of a notepad whose file could be read; `files` maps each readable path to its
      content. */
  function NotepadEntries(notepads: seq<NotepadInfo>, files: map<string, string>): seq<Entry> {
    if notepads == [] then []
    else
      var n := notepads[0];
      (if n.filePath in files
       then [Entry(Notepad, Some(n.id), n.title, n.description, files[n.filePath], n.tags,
                   n.filePath, "/notepads/" + n.id)]
       else [])
      + NotepadEntries(notepads[1..], files)
  }

  // ---------------------------------------------------------------------------------------
  // The indexer

  class Builder {
    /** The `searchIndex` array every step pushes to. */
    var searchIndex: seq<Entry>

    constructor ()
      ensures searchIndex == []
    {
      searchIndex := [];
    }

    /** The notepad loop of `buildSearchIndex`: unreadable notepads are skipped. */
    method IndexNotepads(notepads: seq<NotepadInfo>, files: map<string, string>)
      modifies this
      ensures searchIndex == old(searchIndex) + NotepadEntries(notepads, files)
    {
      var i := 0;
      while i < |notepads|
        invariant 0 <= i <= |notepads|
        invariant searchIndex == old(searchIndex) + NotepadEntries(notepads[..i], files)
      {
        var n := notepads[i];
        NotepadEntriesAppend(notepads[..i], [n], files);
        assert notepads[..i + 1] == notepads[..i] + [n];
        assert NotepadEntries([n], files) ==
          NotepadEntries([n][..1], files) by { assert [n][1..] == []; }
        if n.filePath in files {
          searchIndex := searchIndex + [Entry(Notepad, Some(n.id), n.title, n.description,
                                              files[n.filePath], n.tags, n.filePath,
                                              "/notepads/" + n.id)];
        }
        i := i + 1;
      }
      assert notepads[..|notepads|] == notepads;
    }

    /** `indexDirectory(dirPath, searchIndex, basePath)`. */
    method IndexDirectory(dirPath: string, listing: Listing, basePath: string)
      modifies this
      ensures searchIndex == old(searchIndex) + Walk(dirPath, listing, basePath)
      decreases listing
    {
      if listing.Unlistable? {
        return;
      }
      var items := listing.items;
      ghost var start := searchIndex;
      var i: nat := 0;
      while i < |items|
        invariant i <= |items|
        invariant searchIndex == start + WalkItems(dirPath, items[..i], basePath)
      {
        IndexItem(dirPath, items[i], basePath);
        WalkItemsSnoc(dirPath, items, i, basePath);
        i := i + 1;
      }
      assert items[..|items|] == items;
    }

    /** The body of `indexDirectory`'s loop for one item: a subdirectory's README record and then
        the recursive walk of it, or the record of a readable file with an indexed extension. */
    method IndexItem(dirPath: string, node: Node, basePath: string)
      modifies this
      ensures searchIndex == old(searchIndex) + ItemEntries(dirPath, node, basePath)
      decreases node
    {
      var fullPath := FullPath(dirPath, node.name);
      var relativePath := RelativePath(basePath, node.name);
      match node {
        case Dir(item, readme, sub) =>
          match readme {
            case Some(c) =>
              searchIndex := searchIndex + [ReadmeEntry(fullPath, relativePath, item, c)];
            case None =>
          }
          IndexDirectory(fullPath, sub, relativePath);
        case File(item, content) =>
          var extension := AsciiLower(Extname(item));
          if extension in INDEXED_EXTENSIONS && content.Some? {
            searchIndex := searchIndex + [FileEntry(dirPath, basePath, item, content.value)];
          }
        case Unstattable(_) =>
        case Special(_) =>
      }
    }
  }

  /** `buildSearchIndex`: None when `data/notepads.json` cannot be read or parsed (the build
      exits), else the notepad records followed by the walk of `scripts`. */
  method BuildSearchIndex(notepads: Option<seq<NotepadInfo>>, files: map<string, string>,
                          scripts: Listing)
    returns (index: Option<seq<Entry>>)
    ensures notepads.None? ==> index.None?
    ensures notepads.Some? ==>
      index == Some(NotepadEntries(notepads.value, files) + Walk("scripts", scripts, ""))
  {
    if notepads.None? {
      return None;
    }
    var builder := new Builder();
    builder.IndexNotepads(notepads.value, files);
    assert builder.searchIndex == NotepadEntries(notepads.value, files);
    builder.IndexDirectory("scripts", scripts, "");
    index := Some(builder.searchIndex);
  }

  // ---------------------------------------------------------------------------------------
  // Properties

  lemma {:induction false} WalkItemsAppend(dirPath: string, a: seq<Node>, b: seq<Node>,
                                           basePath: string)
    ensures WalkItems(dirPath, a + b, basePath) ==
      WalkItems(dirPath, a, basePath) + WalkItems(dirPath, b, basePath)
    decreases a
  {
    if a == [] {
      assert a + b == b;
    } else {
      assert (a + b)[1..] == a[1..] + b;
      WalkItemsAppend(dirPath, a[1..], b, basePath);
    }
  }

  /** The loop's step: the records of one more item follow those of the items before it. */
  lemma WalkItemsSnoc(dirPath: string, items: seq<Node>, i: nat, basePath: string)
    requires i < |items|
    ensures WalkItems(dirPath, items[..i + 1], basePath) ==
      WalkItems(dirPath, items[..i], basePath) + ItemEntries(dirPath, items[i], basePath)
  {
    WalkItemsAppend(dirPath, items[..i], [items[i]], basePath);
    assert items[..i + 1] == items[..i] + [items[i]];
    WalkItemsSingle(dirPath, items[i], basePath);
  }

  lemma WalkItemsSingle(dirPath: string, node: Node, basePath: string)
    ensures WalkItems(dirPath, [node], basePath) == ItemEntries(dirPath, node, basePath)
  {
    assert [node][1..] == [];
    assert WalkItems(dirPath, [node][1..], basePath) == [];
  }

  lemma {:induction false} NotepadEntriesAppend(a: seq<NotepadInfo>, b: seq<NotepadInfo>,
                                                files: map<string, string>)
    ensures NotepadEntries(a + b, files) == NotepadEntries(a, files) + NotepadEntries(b, files)
    decreases a
  {
    if a == [] {
      assert a + b == b;
    } else {
      assert (a + b)[1..] == a[1..] + b;
      NotepadEntriesAppend(a[1..], b, files);
    }
  }

  /** The name of a directory item is never empty, as with any name `readdir` returns. */
  predicate Named(node: Node)
    decreases node
  {
    node.name != "" && (node.Dir? && node.listing.Listed? ==> AllNamed(node.listing.items))
  }

  predicate AllNamed(items: seq<Node>)
    decreases items
  {
    items != [] ==> Named(items[0]) && AllNamed(items[1..])
  }

  /** An item the walk skips without stopping: `stat` fails, it is neither file nor directory, a
      file that cannot be read, or a directory that can neither be listed nor has a readable
      README.md. */
  predicate Skipped(node: Node) {
    node.Unstattable? || node.Special? || (node.File? && node.content.None?)
    || (node.Dir? && node.readme.None? && node.listing.Unlistable?)
  }

  /** Node's `extname` has no extension exactly for a name with no dot after its first character
      and for `..`; otherwise the extension is a dot-led suffix of the name with no other dot. */
  lemma ExtnameFacts(name: string)
    ensures Extname(name) == "" <==>
      (forall j :: 0 < j < |name| ==> name[j] != '.') || name == ".."
    ensures Extname(name) != "" ==>
      Extname(name)[0] == '.' && EndsWith(name, Extname(name)) && |Extname(name)| < |name|
      && forall j :: 0 < j < |Extname(name)| ==> Extname(name)[j] != '.'
  {
    var dot := LastIndexOf(name, '.');
    if dot > 0 && name != ".." {
      var r := name[dot..];
      forall j | 0 < j < |r| ensures r[j] != '.' {
        assert r[j] == name[dot + j];
      }
    }
  }

  /** The extension of a name whose last dot is at `k > 0`. */
  lemma ExtnameAt(name: string, k: int)
    requires 0 < k < |name| && name[k] == '.' && name != ".."
    requires forall j :: k < j < |name| ==> name[j] != '.'
    ensures Extname(name) == name[k..]
  {
  }

  /** The extension is compared case-insensitively: `Main.PY` is indexed as python. */
  lemma UpperCaseExtension(dirPath: string, basePath: string, c: string)
    ensures |ItemEntries(dirPath, File("Main.PY", Some(c)), basePath)| == 1
    ensures ItemEntries(dirPath, File("Main.PY", Some(c)), basePath)[0].kind == Python
  {
    ExtnameAt("Main.PY", 4);
    assert AsciiLower("Main.PY"[4..]) == ".py";
  }

  /** Only the last dot counts: `v1.2.md` is indexed as markdown. */
  lemma LastDotCounts(dirPath: string, basePath: string, c: string)
    ensures |ItemEntries(dirPath, File("v1.2.md", Some(c)), basePath)| == 1
    ensures ItemEntries(dirPath, File("v1.2.md", Some(c)), basePath)[0].kind == Markdown
  {
    ExtnameAt("v1.2.md", 4);
    assert AsciiLower("v1.2.md"[4..]) == ".md";
  }

  /** A name whose only dot leads it, such as `.json`, has no extension and is not indexed. */
  lemma LeadingDotNotIndexed(dirPath: string, basePath: string, c: string)
    ensures ItemEntries(dirPath, File(".json", Some(c)), basePath) == []
  {
    assert LastIndexOf(".json", '.') == 0 by {
      assert ".json"[0] == '.';
    }
  }

  /** A file yields a record exactly when it can be read and its lower-cased extension is one of
      the indexed ones; the record is then typed by that extension. */
  lemma FileIndexed(dirPath: string, item: string, content: Option<string>, basePath: string)
    ensures var es := ItemEntries(dirPath, File(item, content), basePath);
      (es != [] <==> content.Some? && AsciiLower(Extname(item)) in INDEXED_EXTENSIONS)
      && |es| <= 1
      && (es != [] ==> es[0].title == item && es[0].content == content.value
                       && es[0].kind in {Python, Markdown, JavaScript, PlainFile}
                       && (es[0].kind == PlainFile <==>
                             AsciiLower(Extname(item)) in [".txt", ".json"]))
  {
  }

  /** Where the README of a directory's listing is. */
  lemma ReadmePosition(items: seq<Node>) returns (k: nat)
    requires ReadmeIn(items).Some?
    ensures k < |items| && items[k] == File("README.md", ReadmeIn(items))
  {
    if items[0].name == "README.md" {
      k := 0;
    } else {
      var k' := ReadmePosition(items[1..]);
      k := k' + 1;
    }
  }

  /** The records of the items split around the item at `k`. */
  lemma WalkItemsAround(dirPath: string, items: seq<Node>, k: nat, basePath: string)
    requires k < |items|
    ensures WalkItems(dirPath, items, basePath) ==
      WalkItems(dirPath, items[..k], basePath) + ItemEntries(dirPath, items[k], basePath)
      + WalkItems(dirPath, items[k + 1..], basePath)
  {
    var rest := items[k + 1..];
    assert items == items[..k] + ([items[k]] + rest);
    WalkItemsAppend(dirPath, items[..k], [items[k]] + rest, basePath);
    WalkItemsAppend(dirPath, [items[k]], rest, basePath);
    WalkItemsSingle(dirPath, items[k], basePath);
  }

  /** An unreadable item is passed over and the walk goes on with its siblings. */
  lemma SkipUnreadable(dirPath: string, before: seq<Node>, node: Node, after: seq<Node>,
                       basePath: string)
    requires Skipped(node)
    ensures WalkItems(dirPath, before + [node] + after, basePath) ==
      WalkItems(dirPath, before + after, basePath)
  {
    WalkItemsAppend(dirPath, before + [node], after, basePath);
    WalkItemsAppend(dirPath, before, [node], basePath);
    WalkItemsAppend(dirPath, before, after, basePath);
    WalkItemsSingle(dirPath, node, basePath);
    SkippedContributesNothing(dirPath, node, basePath);
  }

  lemma SkippedContributesNothing(dirPath: string, node: Node, basePath: string)
    requires Skipped(node)
    ensures ItemEntries(dirPath, node, basePath) == []
  {
    if node.Dir? {
      assert Walk(FullPath(dirPath, node.name), node.listing, RelativePath(basePath, node.name))
        == [];
    }
  }

  /** A directory `readdir` cannot list still contributes its README record when its README.md
      can be read, and nothing else; without a readable README.md it contributes nothing. */
  lemma UnlistableReadme(dirPath: string, item: string, readme: Option<string>, basePath: string)
    ensures var es := ItemEntries(dirPath, Dir(item, readme, Unlistable), basePath);
      (readme.Some? ==> es == [ReadmeEntry(FullPath(dirPath, item), RelativePath(basePath, item),
                                           item, readme.value)])
      && (readme.None? ==> es == [])
  {
    assert Walk(FullPath(dirPath, item), Unlistable, RelativePath(basePath, item)) == [];
  }

  /** README.md is indexed as a markdown file. */
  lemma ReadmeIsMarkdown(dirPath: string, basePath: string, c: string)
    ensures ItemEntries(dirPath, File("README.md", Some(c)), basePath) ==
      [FileEntry(dirPath, basePath, "README.md", c)]
    ensures FileEntry(dirPath, basePath, "README.md", c).kind == Markdown
  {
    ExtnameAt("README.md", 6);
    assert AsciiLower("README.md"[6..]) == ".md";
  }

  /** A subdirectory with a readable README.md contributes its README record first, ahead of
      everything inside it, and the same file again as a markdown record from the walk inside. */
  lemma ReadmeFirstAndTwice(dirPath: string, item: string, items: seq<Node>, basePath: string)
    requires ReadmeIn(items).Some?
    ensures var es := ItemEntries(dirPath, Dir(item, ReadmeIn(items), Listed(items)), basePath);
      var fullPath := FullPath(dirPath, item);
      && es[0] == ReadmeEntry(fullPath, RelativePath(basePath, item), item, ReadmeIn(items).value)
      && exists j :: 1 <= j < |es| && es[j].kind == Markdown && es[j].title == "README.md"
                     && es[j].content == ReadmeIn(items).value
                     && es[j].filePath == es[0].filePath
  {
    var c := ReadmeIn(items).value;
    var k := ReadmePosition(items);
    var fullPath := FullPath(dirPath, item);
    var relativePath := RelativePath(basePath, item);
    var inner := WalkItems(fullPath, items, relativePath);
    WalkItemsAround(fullPath, items, k, relativePath);
    ReadmeIsMarkdown(fullPath, relativePath, c);
    var before := WalkItems(fullPath, items[..k], relativePath);
    var md := FileEntry(fullPath, relativePath, "README.md", c);
    assert inner[|before|] == md;
    assert Walk(fullPath, Listed(items), relativePath) == inner;
    var es := ItemEntries(dirPath, Dir(item, ReadmeIn(items), Listed(items)), basePath);
    assert es == [ReadmeEntry(fullPath, relativePath, item, c)] + inner;
    assert es[1 + |before|] == md;
  }

  /** The invariant of the walk from `root`: `dirPath` is the directory `basePath` names. */
  predicate Under(root: string, dirPath: string, basePath: string) {
    (basePath == "" && dirPath == root) || (basePath != "" && dirPath == root + "/" + basePath)
  }

  /** A record of the walk from `root`: its URL is `/browser/` and a path under `root`, and its
      file is that path (the README.md inside it, for a README record). */
  predicate Located(e: Entry, root: string) {
    |e.url| >= 9 && e.url[..9] == "/browser/"
    && e.filePath == root + "/" + e.url[9..] + (if e.kind == Readme then "/README.md" else "")
  }

  lemma {:induction false} LocatedWalk(root: string, dirPath: string, listing: Listing,
                                       basePath: string)
    requires Under(root, dirPath, basePath)
    requires listing.Listed? ==> AllNamed(listing.items)
    ensures forall e :: e in Walk(dirPath, listing, basePath) ==> Located(e, root)
    decreases listing
  {
    if listing.Listed? {
      LocatedItems(root, dirPath, listing.items, basePath);
    }
  }

  lemma {:induction false} LocatedItems(root: string, dirPath: string, items: seq<Node>,
                                        basePath: string)
    requires Under(root, dirPath, basePath) && AllNamed(items)
    ensures forall e :: e in WalkItems(dirPath, items, basePath) ==> Located(e, root)
    decreases items
  {
    if items != [] {
      LocatedItem(root, dirPath, items[0], basePath);
      LocatedItems(root, dirPath, items[1..], basePath);
    }
  }

  lemma {:induction false} LocatedItem(root: string, dirPath: string, node: Node,
                                       basePath: string)
    requires Under(root, dirPath, basePath) && Named(node)
    ensures forall e :: e in ItemEntries(dirPath, node, basePath) ==> Located(e, root)
    decreases node
  {
    var fullPath := FullPath(dirPath, node.name);
    var relativePath := RelativePath(basePath, node.name);
    match node {
      case Dir(item, readme, listing) =>
        LocatedPaths(root, dirPath, basePath, item);
        LocatedWalk(root, fullPath, listing, relativePath);
        match readme {
          case Some(c) => LocatedReadme(root, dirPath, basePath, item, c);
          case None =>
        }
      case File(item, content) =>
        if content.Some? {
          LocatedFile(root, dirPath, basePath, item, content.value);
        }
      case Unstattable(_) =>
      case Special(_) =>
    }
  }

  /** An item's full path is `root`, a slash and its relative path; for a directory with a
      non-empty name, that full path and relative path keep the walk's invariant. */
  lemma LocatedPaths(root: string, dirPath: string, basePath: string, item: string)
    requires Under(root, dirPath, basePath)
    ensures FullPath(dirPath, item) == root + "/" + RelativePath(basePath, item)
    ensures item != "" ==>
      Under(root, FullPath(dirPath, item), RelativePath(basePath, item))
  {
  }

  lemma LocatedReadme(root: string, dirPath: string, basePath: string, item: string, c: string)
    requires Under(root, dirPath, basePath)
    ensures Located(ReadmeEntry(FullPath(dirPath, item), RelativePath(basePath, item), item, c),
                    root)
  {
    var relativePath := RelativePath(basePath, item);
    LocatedPaths(root, dirPath, basePath, item);
    assert ("/browser/" + relativePath)[9..] == relativePath;
  }

  lemma LocatedFile(root: string, dirPath: string, basePath: string, item: string, c: string)
    requires Under(root, dirPath, basePath)
    ensures Located(FileEntry(dirPath, basePath, item, c), root)
  {
    var relativePath := RelativePath(basePath, item);
    LocatedPaths(root, dirPath, basePath, item);
    var e := FileEntry(dirPath, basePath, item, c);
    assert e.kind != Readme;
    assert e.url == "/browser/" + relativePath && e.filePath == FullPath(dirPath, item);
    assert e.url[9..] == relativePath;
  }

  /** Every record of the `scripts` walk names its file: the URL is `/browser/` and the path below
      `scripts`. The root's own README.md therefore never becomes a README record. */
  lemma IndexedPaths(scripts: Listing)
    requires scripts.Listed? ==> AllNamed(scripts.items)
    ensures forall e :: e in Walk("scripts", scripts, "") ==>
      |e.url| >= 9 && e.url[..9] == "/browser/"
      && e.filePath == "scripts/" + e.url[9..] + (if e.kind == Readme then "/README.md" else "")
    ensures forall e :: e in Walk("scripts", scripts, "") && e.kind == Readme ==>
      e.filePath != "scripts/README.md"
  {
    LocatedWalk("scripts", "scripts", scripts, "");
    forall e | e in Walk("scripts", scripts, "")
      ensures e.filePath == "scripts/" + e.url[9..] + (if e.kind == Readme then "/README.md" else "")
    {
      assert Located(e, "scripts");
    }
  }

  lemma {:induction false} WalkHasNoNotepad(dirPath: string, listing: Listing, basePath: string)
    ensures forall e :: e in Walk(dirPath, listing, basePath) ==> e.kind != Notepad
    decreases listing
  {
    if listing.Listed? {
      ItemsHaveNoNotepad(dirPath, listing.items, basePath);
    }
  }

  lemma {:induction false} ItemsHaveNoNotepad(dirPath: string, items: seq<Node>, basePath: string)
    ensures forall e :: e in WalkItems(dirPath, items, basePath) ==> e.kind != Notepad
    decreases items
  {
    if items != [] {
      if items[0].Dir? {
        var n := items[0];
        WalkHasNoNotepad(FullPath(dirPath, n.name), n.listing, RelativePath(basePath, n.name));
      }
      ItemsHaveNoNotepad(dirPath, items[1..], basePath);
    }
  }

  /** Each notepad record is typed `notepad`, sits at `/notepads/<id>`, and comes from a notepad
      whose file could be read, with that file's content. */
  lemma {:induction false} NotepadRecordsSound(notepads: seq<NotepadInfo>,
                                               files: map<string, string>)
    ensures |NotepadEntries(notepads, files)| <= |notepads|
    ensures forall e :: e in NotepadEntries(notepads, files) ==>
      e.kind == Notepad && e.id.Some? && e.url == "/notepads/" + e.id.value
      && exists i :: 0 <= i < |notepads| && notepads[i].filePath in files
                     && e.id == Some(notepads[i].id) && e.content == files[notepads[i].filePath]
    decreases notepads
  {
    if notepads != [] {
      NotepadRecordsSound(notepads[1..], files);
      forall e | e in NotepadEntries(notepads[1..], files)
        ensures exists i :: 0 <= i < |notepads| && notepads[i].filePath in files
                            && e.id == Some(notepads[i].id)
                            && e.content == files[notepads[i].filePath]
      {
        var i :| 0 <= i < |notepads[1..]| && notepads[1..][i].filePath in files
                 && e.id == Some(notepads[1..][i].id)
                 && e.content == files[notepads[1..][i].filePath];
        assert notepads[i + 1] == notepads[1..][i];
      }
    }
  }

  /** Every notepad whose file can be read has its record. */
  lemma {:induction false} NotepadRecordsComplete(notepads: seq<NotepadInfo>,
                                                  files: map<string, string>, i: nat)
    requires i < |notepads| && notepads[i].filePath in files
    ensures exists e :: e in NotepadEntries(notepads, files) && e.id == Some(notepads[i].id)
                        && e.content == files[notepads[i].filePath]
    decreases i
  {
    if i > 0 {
      NotepadRecordsComplete(notepads[1..], files, i - 1);
      assert notepads[1..][i - 1] == notepads[i];
      var e :| e in NotepadEntries(notepads[1..], files) && e.id == Some(notepads[i].id)
        && e.content == files[notepads[i].filePath];
      assert e in NotepadEntries(notepads, files);
    } else {
      var n := notepads[0];
      var e := Entry(Notepad, Some(n.id), n.title, n.description, files[n.filePath], n.tags,
                     n.filePath, "/notepads/" + n.id);
      assert NotepadEntries(notepads, files)[0] == e;
    }
  }

  /** Every notepad record precedes every record of the directory walk. */
  lemma NotepadsFirst(notepads: seq<NotepadInfo>, files: map<string, string>, scripts: Listing)
    ensures var np := NotepadEntries(notepads, files);
      var index := np + Walk("scripts", scripts, "");
      forall i :: 0 <= i < |index| ==> (index[i].kind == Notepad <==> i < |np|)
  {
    NotepadRecordsSound(notepads, files);
    WalkHasNoNotepad("scripts", scripts, "");
    var np := NotepadEntries(notepads, files);
    var index := np + Walk("scripts", scripts, "");
    forall i | 0 <= i < |index| ensures index[i].kind == Notepad <==> i < |np| {
      if i < |np| {
        assert index[i] == np[i];
      } else {
        assert index[i] == Walk("scripts", scripts, "")[i - |np|];
      }
    }
  }
}

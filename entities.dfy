/**
 * Listing rows. Each entry of a bucket listing is either a stored object or a
 * common prefix, and becomes a `File` or a `Folder` whose name is the entry's
 * key with the requested path cut off.
 */
module Entities {
  import opened Wrappers
  import opened FileSize
  import opened Timestamp

  /** One entry of `bucket.list(prefix=path, delimiter="/")`: an object, with the
      signed download link `generate_url` gives for it, or a common prefix. */
  datatype ListingEntry =
    | StoredObject(name: string, lastModified: string, size: nat, signedUrl: string)
    | CommonPrefix(name: string)

  /** A listing row as the template sees it. A `File`'s size is `None` when
      `format_fsize` fell through all of its branches. */
  datatype Entity =
    | File(name: string, lastModified: string, size: Option<string>, url: string, ext: string)
    | Folder(name: string, url: string)
  {
    /** The `dir` attribute: false for a `File`, true for a `Folder`. */
    predicate IsDir() {
      Folder?
    }
  }

  /** `s.rfind(c)`: the index of the last `c` in `s`, or -1. */
  function LastIndexOf(s: string, c: char): (r: int)
    ensures -1 <= r < |s|
    ensures r >= 0 ==> s[r] == c
  {
    LastBefore(s, c, |s|)
  }

  /** The last index below `hi` that holds `c`, or -1. */
  function LastBefore(s: string, c: char, hi: nat): (r: int)
    requires hi <= |s|
    ensures -1 <= r < hi
    ensures r >= 0 ==> s[r] == c
  {
    if hi == 0 then -1
    else if s[hi - 1] == c then hi - 1
    else LastBefore(s, c, hi - 1)
  }

  lemma {:induction false} LastBeforeIsLast(s: string, c: char, hi: nat)
    requires hi <= |s|
    ensures forall j :: LastBefore(s, c, hi) < j < hi ==> s[j] != c
  {
    if hi > 0 && s[hi - 1] != c {
      LastBeforeIsLast(s, c, hi - 1);
    }
  }

  /** No `c` follows the one `rfind` finds. */
  lemma LastIndexOfIsLast(s: string, c: char)
    ensures forall j :: LastIndexOf(s, c) < j < |s| ==> s[j] != c
  {
    LastBeforeIsLast(s, c, |s|);
  }

  /** Searching the suffix `p[lo..]` finds the last `c` of `p`, shifted by `lo`, when
      that `c` lies in the suffix, and nothing otherwise. */
  lemma {:induction false} LastBeforeSuffix(p: string, lo: nat, c: char, h: nat)
    requires lo + h <= |p|
    ensures var whole, part := LastBefore(p, c, lo + h), LastBefore(p[lo..], c, h);
      && (whole >= lo <==> part >= 0)
      && (whole >= lo ==> part == whole - lo)
  {
    if h > 0 {
      assert p[lo..][h - 1] == p[lo + h - 1];
      LastBeforeSuffix(p, lo, c, h - 1);
    }
  }

  /** Some character of `p[lo..hi]` is not a dot. */
  predicate HasNonDot(p: string, lo: nat, hi: nat)
    requires lo <= hi <= |p|
  {
    exists k :: lo <= k < hi && p[k] != '.'
  }

  /** `os.path.splitext(p)` on POSIX: the extension starts at the last dot after the
      last slash, unless everything between that slash and the dot is dots. */
  function SplitExt(p: string): (r: (string, string))
  {
    var sepIndex := LastIndexOf(p, '/');
    var dotIndex := LastIndexOf(p, '.');
    if dotIndex > sepIndex && HasNonDot(p, sepIndex + 1, dotIndex)
    then (p[..dotIndex], p[dotIndex..])
    else (p, "")
  }

  /** `s.replace(".", "")`. */
  function RemoveDots(s: string): (r: string)
    ensures forall i :: 0 <= i < |r| ==> r[i] != '.'
  {
    if s == [] then []
    else if s[0] == '.' then RemoveDots(s[1..])
    else [s[0]] + RemoveDots(s[1..])
  }

  /** `os.path.splitext(name)[1].replace(".", "")`. */
  function FileExt(name: string): string {
    RemoveDots(SplitExt(name).1)
  }

  /** The final path component: everything after the last slash. */
  function BaseName(p: string): string {
    p[LastIndexOf(p, '/') + 1..]
  }

  /** `splitext` splits without losing characters, and a non-empty extension is one
      dot followed by text with no dot and no slash. */
  lemma SplitExtParts(p: string)
    ensures SplitExt(p).0 + SplitExt(p).1 == p
    ensures var ext := SplitExt(p).1;
      ext != [] ==> ext[0] == '.' && forall i :: 0 < i < |ext| ==> ext[i] != '.' && ext[i] != '/'
  {
    var sepIndex := LastIndexOf(p, '/');
    var dotIndex := LastIndexOf(p, '.');
    if dotIndex > sepIndex && HasNonDot(p, sepIndex + 1, dotIndex) {
      LastIndexOfIsLast(p, '/');
      LastIndexOfIsLast(p, '.');
      assert p[..dotIndex] + p[dotIndex..] == p;
    }
  }

  lemma {:induction false} RemoveDotsKeeps(s: string)
    requires forall i :: 0 <= i < |s| ==> s[i] != '.'
    ensures RemoveDots(s) == s
  {
    if s != [] {
      RemoveDotsKeeps(s[1..]);
    }
  }

  lemma LastIndexOfSuffix(p: string, lo: nat, c: char)
    requires lo <= |p|
    ensures var r := LastIndexOf(p[lo..], c);
      LastIndexOf(p, c) >= lo <==> r >= 0
    ensures LastIndexOf(p, c) >= lo ==> LastIndexOf(p[lo..], c) == LastIndexOf(p, c) - lo
  {
    LastBeforeSuffix(p, lo, c, |p| - lo);
  }

  lemma HasNonDotShift(p: string, lo: nat, hi: nat)
    requires lo <= hi <= |p|
    ensures HasNonDot(p[lo..], 0, hi - lo) <==> HasNonDot(p, lo, hi)
  {
    if HasNonDot(p[lo..], 0, hi - lo) {
      var k :| 0 <= k < hi - lo && p[lo..][k] != '.';
      assert p[lo + k] != '.';
    }
    if HasNonDot(p, lo, hi) {
      var k :| lo <= k < hi && p[k] != '.';
      assert p[lo..][k - lo] != '.';
    }
  }

  /** Removing dots from an extension drops just its leading dot. */
  lemma RemoveDotsOfExt(ext: string)
    requires ext != [] && ext[0] == '.'
    requires forall i :: 0 < i < |ext| ==> ext[i] != '.'
    ensures RemoveDots(ext) == ext[1..]
  {
    RemoveDotsKeeps(ext[1..]);
  }

  /** Where the last dot of the final component lies in the whole name. */
  lemma BaseNameDot(name: string)
    ensures var sepIndex, dotIndex := LastIndexOf(name, '/'), LastIndexOf(name, '.');
      var d := LastIndexOf(BaseName(name), '.');
      && (dotIndex > sepIndex <==> d >= 0)
      && (dotIndex > sepIndex ==>
            && d == dotIndex - (sepIndex + 1)
            && (HasNonDot(BaseName(name), 0, d) <==> HasNonDot(name, sepIndex + 1, dotIndex)))
  {
    var sepIndex, dotIndex := LastIndexOf(name, '/'), LastIndexOf(name, '.');
    LastIndexOfSuffix(name, sepIndex + 1, '.');
    if dotIndex > sepIndex {
      HasNonDotShift(name, sepIndex + 1, dotIndex);
    }
  }

  lemma FileExtAfterDot(name: string)
    requires var sepIndex, dotIndex := LastIndexOf(name, '/'), LastIndexOf(name, '.');
      dotIndex > sepIndex && HasNonDot(name, sepIndex + 1, dotIndex)
    ensures FileExt(name) == name[LastIndexOf(name, '.') + 1..]
  {
    var dotIndex := LastIndexOf(name, '.');
    assert SplitExt(name).1 == name[dotIndex..];
    SplitExtParts(name);
    RemoveDotsOfExt(name[dotIndex..]);
  }

  lemma FileExtFound(name: string)
    requires var sepIndex, dotIndex := LastIndexOf(name, '/'), LastIndexOf(name, '.');
      dotIndex > sepIndex && HasNonDot(name, sepIndex + 1, dotIndex)
    ensures var b := BaseName(name);
      var d := LastIndexOf(b, '.');
      d >= 0 && HasNonDot(b, 0, d) && FileExt(name) == b[d + 1..]
  {
    BaseNameDot(name);
    FileExtAfterDot(name);
    BaseNameSuffix(name);
  }

  /** The text after the last dot of the final component is the text after the last
      dot of the whole name. */
  lemma BaseNameSuffix(name: string)
    requires LastIndexOf(name, '.') > LastIndexOf(name, '/')
    ensures var b := BaseName(name);
      var d := LastIndexOf(b, '.');
      d >= 0 && b[d + 1..] == name[LastIndexOf(name, '.') + 1..]
  {
    var sepIndex, dotIndex := LastIndexOf(name, '/'), LastIndexOf(name, '.');
    var b := BaseName(name);
    var d := LastIndexOf(b, '.');
    assert b == name[sepIndex + 1..] by {
      BaseNameIsSuffix(name);
    }
    assert d == dotIndex - (sepIndex + 1) by {
      BaseNameLastDot(name);
    }
    calc {
      b[d + 1..];
      name[sepIndex + 1..][d + 1..];
      { DropShifted(name, sepIndex, dotIndex, d); }
      name[dotIndex + 1..];
    }
  }

  lemma BaseNameIsSuffix(name: string)
    ensures BaseName(name) == name[LastIndexOf(name, '/') + 1..]
  {
  }

  lemma BaseNameLastDot(name: string)
    requires LastIndexOf(name, '.') > LastIndexOf(name, '/')
    ensures LastIndexOf(BaseName(name), '.') == LastIndexOf(name, '.') - LastIndexOf(name, '/') - 1
  {
    LastIndexOfSuffix(name, LastIndexOf(name, '/') + 1, '.');
  }

  lemma DropShifted(s: string, sep: int, dot: int, d: int)
    requires -1 <= sep < dot < |s| && d == dot - (sep + 1)
    ensures s[sep + 1..][d + 1..] == s[dot + 1..]
  {
  }

  lemma FileExtEmpty(name: string)
    requires var sepIndex, dotIndex := LastIndexOf(name, '/'), LastIndexOf(name, '.');
      !(dotIndex > sepIndex && HasNonDot(name, sepIndex + 1, dotIndex))
    ensures var b := BaseName(name);
      var d := LastIndexOf(b, '.');
      !(d >= 0 && HasNonDot(b, 0, d)) && FileExt(name) == ""
  {
    BaseNameDot(name);
    assert SplitExt(name).1 == "";
  }

  /** `File.ext` has no dot. It is empty when the final path component has no dot,
      ends in its last dot, or has only dots before that dot; otherwise it is the text
      after the last dot of the final component. */
  lemma FileExtSpec(name: string)
    ensures forall i :: 0 <= i < |FileExt(name)| ==> FileExt(name)[i] != '.'
    ensures var b := BaseName(name);
      var d := LastIndexOf(b, '.');
      FileExt(name) == if d >= 0 && HasNonDot(b, 0, d) then b[d + 1..] else ""
  {
    var sepIndex, dotIndex := LastIndexOf(name, '/'), LastIndexOf(name, '.');
    if dotIndex > sepIndex && HasNonDot(name, sepIndex + 1, dotIndex) {
      FileExtFound(name);
    } else {
      FileExtEmpty(name);
    }
  }

  /** Only the last suffix is the extension. */
  lemma FileExtLastSuffix()
    ensures FileExt("a.tar.gz") == "gz"
  {
    var s := "a.tar.gz";
    assert s[7] != '.' && s[6] != '.' && s[5] == '.';
    assert LastBefore(s, '.', 6) == 5;
    assert LastBefore(s, '.', 7) == 5;
    assert LastBefore(s, '.', |s|) == 5;
    assert s[0] != '.';
  }

  /** Leading dots do not start an extension. */
  lemma FileExtLeadingDots()
    ensures FileExt(".bashrc") == ""
    ensures FileExt("..x") == ""
  {
  }

  /** A trailing dot gives no extension. */
  lemma FileExtTrailingDot(name: string)
    requires name == "t."
    ensures FileExt(name) == ""
  {
    assert name[1] == '.' && name[0] != '/';
    assert LastIndexOf(name, '.') == 1;
    assert LastBefore(name, '/', 1) == -1;
    assert LastIndexOf(name, '/') == -1;
    assert HasNonDot(name, 0, 1);
    assert SplitExt(name).1 == ".";
    assert RemoveDots(".") == RemoveDots("");
  }

  /** Without a dot there is no extension. */
  lemma FileExtWithoutDot(name: string)
    requires name == "noext"
    ensures FileExt(name) == ""
  {
    assert forall i :: 0 <= i < |name| ==> name[i] != '.';
    assert LastIndexOf(name, '.') == -1;
  }

  /** A dot in a directory name is not an extension. */
  lemma FileExtDotInDirectory(name: string)
    requires name == "d.d/f"
    ensures FileExt(name) == ""
  {
    assert name[3] == '/' && name[4] != '/' && name[4] != '.' && name[3] != '.';
    assert LastBefore(name, '/', 4) == 3;
    assert LastIndexOf(name, '/') == 3;
    LastIndexOfIsLast(name, '.');
    assert LastIndexOf(name, '.') < 3;
  }

  /** `key.name[len(path):]`: Python's slice, empty when the key is shorter than the path. */
  function DropPrefix(key: string, n: nat): string {
    if n <= |key| then key[n..] else []
  }

  /** `File(name, last_modified, size, url)`: the size goes through `format_fsize`. */
  function NewFile(name: string, lastModified: string, size: nat, url: string): Entity {
    File(name, lastModified, FormatSize(size), url, FileExt(name))
  }

  /** `Folder(name)`: a link back into this listing. */
  function NewFolder(name: string): Entity {
    Folder(name, "./" + name)
  }

  /** One turn of the listing loop. For an object, a timestamp that `format_timestring`
      refuses raises `ValueError`, and a size too large for `round` raises
      `OverflowError`; `except AttributeError` catches neither, and the whole request
      fails: `None`. */
  function EntityOf(path: string, entry: ListingEntry): Option<Entity> {
    var name := DropPrefix(entry.name, |path|);
    match entry
    case StoredObject(_, lastModified, size, signedUrl) =>
      (match FormatTimestring(lastModified)
       case None => None
       case Some(stamp) =>
         if size >= FloatOverflow then None else Some(NewFile(name, stamp, size, signedUrl)))
    case CommonPrefix(_) => Some(NewFolder(name))
  }

  /** Applies a step that may fail to every element in order; fails if any step does. */
  function MapOrFail<A, B>(f: A -> Option<B>, xs: seq<A>): Option<seq<B>> {
    if xs == [] then Some([])
    else
      match MapOrFail(f, xs[..|xs| - 1])
      case None => None
      case Some(init) =>
        match f(xs[|xs| - 1])
        case None => None
        case Some(y) => Some(init + [y])
  }

  lemma {:induction false} MapOrFailSpec<A, B>(f: A -> Option<B>, xs: seq<A>)
    ensures MapOrFail(f, xs).Some? <==> forall i :: 0 <= i < |xs| ==> f(xs[i]).Some?
    ensures MapOrFail(f, xs).Some? ==>
      var ys := MapOrFail(f, xs).value;
      |ys| == |xs| && forall i :: 0 <= i < |xs| ==> Some(ys[i]) == f(xs[i])
  {
    if xs != [] {
      var n := |xs| - 1;
      var init := xs[..n];
      MapOrFailSpec(f, init);
      assert forall i :: 0 <= i < n ==> init[i] == xs[i];
    }
  }

  /** The entities of a whole listing, or `None` when some entry raises. */
  function EntitiesOf(path: string, listing: seq<ListingEntry>): Option<seq<Entity>> {
    MapOrFail(entry => EntityOf(path, entry), listing)
  }

  /** How each entry becomes a row: objects become files carrying the formatted size and
      time, the signed link and the extension; prefixes become folders linking to
      "./" + name; only an object with a refused timestamp or an overflowing size fails.
      The name is the key after the requested path. */
  lemma EntityOfSpec(path: string, entry: ListingEntry)
    ensures entry.CommonPrefix? ==> EntityOf(path, entry).Some?
    ensures entry.StoredObject? ==>
      (EntityOf(path, entry).Some? <==>
         FormatTimestring(entry.lastModified).Some? && entry.size < FloatOverflow)
    ensures EntityOf(path, entry).Some? ==>
      var e := EntityOf(path, entry).value;
      && (e.File? <==> entry.StoredObject?)
      && (e.IsDir() <==> entry.CommonPrefix?)
      && (e.Folder? ==> e.url == "./" + e.name)
      && (e.File? ==> && Some(e.lastModified) == FormatTimestring(entry.lastModified)
                      && e.size == FormatSize(entry.size)
                      && e.url == entry.signedUrl
                      && e.ext == FileExt(e.name))
      && (path <= entry.name ==> path + e.name == entry.name)
  {
    if path <= entry.name {
      assert path + entry.name[|path|..] == entry.name;
    }
  }

  /** The listing loop yields one row per entry, in listing order, and fails exactly
      when one of the entries does. */
  lemma EntitiesOfSpec(path: string, listing: seq<ListingEntry>)
    ensures EntitiesOf(path, listing).Some? <==>
      forall i :: 0 <= i < |listing| ==> EntityOf(path, listing[i]).Some?
    ensures EntitiesOf(path, listing).Some? ==>
      var es := EntitiesOf(path, listing).value;
      |es| == |listing| && forall i :: 0 <= i < |listing| ==> Some(es[i]) == EntityOf(path, listing[i])
  {
    MapOrFailSpec(entry => EntityOf(path, entry), listing);
  }

  /** The listing loop of `index`: one `File` or `Folder` appended per entry, in order;
      an exception from an entry ends the request. */
  method BuildEntities(path: string, listing: seq<ListingEntry>) returns (entities: Option<seq<Entity>>)
    ensures entities == EntitiesOf(path, listing)
  {
    var acc: seq<Entity> := [];
    for i := 0 to |listing|
      invariant EntitiesOf(path, listing[..i]) == Some(acc)
    {
      assert listing[..i + 1][..i] == listing[..i];
      var entry := listing[i];
      var name := DropPrefix(entry.name, |path|);
      var entity: Entity;
      match entry {
        case StoredObject(_, lastModified, size, signedUrl) =>
          var stamp := FormatTimestring(lastModified);
          if stamp.None? {
            EntitiesOfSpec(path, listing[..i + 1]);
            EntitiesOfSpec(path, listing);
            return None;
          }
          var fsize, overflow := FormatFsize(size);
          if overflow {
            EntitiesOfSpec(path, listing[..i + 1]);
            EntitiesOfSpec(path, listing);
            return None;
          }
          entity := File(name, stamp.value, fsize, signedUrl, FileExt(name));
        case CommonPrefix(_) =>
          entity := Folder(name, "./" + name);
      }
      acc := acc + [entity];
    }
    assert listing[..|listing|] == listing;
    entities := Some(acc);
  }
}

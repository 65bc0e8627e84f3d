/**
 * The image fallback (`flat_pdf_to_text` and `pdf_to_image`): the scratch workspace is
 * cleared of regular files, the rasteriser writes `1.png`..`N.png` into it, the `.png`
 * entries are counted, and the OCR oracle's text for pages 1..count is concatenated.
 *
 * The workspace is a directory `./workdir/images`, modelled as a map from entry name to
 * the kind of entry. The rasteriser is given as its outcome (failure, or a page count),
 * and the OCR oracle as a function from page number to its reply (`None` when the call
 * raised).
 */
module Scratch {
  import opened Base
  import opened Text

  datatype Kind = RegularFile | Directory

  /** Outcome of `convert_from_path`: it raised, or it rendered that many pages. */
  datatype Raster = RenderFailed | Rendered(pages: nat)

  /** Outcome of `pdf_to_image`: `False`, `True`, or an exception while saving an image. */
  datatype SaveOutcome = Unavailable | Written | WriteRaised

  /** Outcome of `flat_pdf_to_text`: `False`, an exception, or the transcribed text. */
  datatype FlatResult = NoRenderer | Raised | Transcribed(text: string)

  /** `f"{i}.png"` */
  function PageName(i: nat): string
  {
    Decimal(i) + ".png"
  }

  lemma PageNameIsPng(i: nat)
    ensures EndsWith(PageName(i), ".png")
  {
    var p := PageName(i);
    assert p[|p| - 4..] == ".png";
  }

  /** Different pages are saved under different names. */
  lemma PageNameInjective(i: nat, j: nat)
    requires PageName(i) == PageName(j)
    ensures i == j
  {
    var p := PageName(i);
    assert Decimal(i) == p[..|p| - 4] == Decimal(j);
    DecimalInjective(i, j);
  }

  /** The names of pages 1..n. */
  function PageNames(n: nat): set<string>
  {
    set i | 1 <= i <= n :: PageName(i)
  }

  lemma PageNamesNext(n: nat)
    ensures PageNames(n + 1) == PageNames(n) + {PageName(n + 1)}
    ensures PageName(n + 1) !in PageNames(n)
  {
    if PageName(n + 1) in PageNames(n) {
      var i :| 1 <= i <= n && PageName(i) == PageName(n + 1);
      PageNameInjective(i, n + 1);
    }
  }

  /** There are exactly n page names for n pages. */
  lemma {:induction false} PageNamesCount(n: nat)
    ensures |PageNames(n)| == n
  {
    if n > 0 {
      PageNamesCount(n - 1);
      PageNamesNext(n - 1);
    }
  }

  /** The image files written for pages 1..n. */
  function PageFiles(n: nat): map<string, Kind>
  {
    map name | name in PageNames(n) :: RegularFile
  }

  /** The names that end in `.png`. */
  function PngNames(names: set<string>): set<string>
  {
    set name | name in names && EndsWith(name, ".png")
  }

  predicate IsFile(m: map<string, Kind>, name: string)
  {
    name in m && m[name] == RegularFile
  }

  predicate IsDir(m: map<string, Kind>, name: string)
  {
    name in m && m[name] == Directory
  }

  /** The workspace with its regular files removed. */
  function Subdirectories(m: map<string, Kind>): (d: map<string, Kind>)
    ensures forall name :: name in d <==> IsDir(m, name)
    ensures forall name | name in d :: d[name] == Directory
  {
    map name | name in m && m[name] == Directory :: Directory
  }

  /** How many pages, from page 1 on, are saved before a page's name is taken by a directory. */
  function SavablePages(m: map<string, Kind>, n: nat): (k: nat)
    ensures k <= n
    ensures forall i | 1 <= i <= k :: !IsDir(m, PageName(i))
    ensures k < n ==> IsDir(m, PageName(k + 1))
  {
    if n == 0 then 0
    else
      var k := SavablePages(m, n - 1);
      if k == n - 1 && !IsDir(m, PageName(n)) then n else k
  }

  /** The OCR oracle's replies for pages 1..n in page order, or `None` if one of the calls failed. */
  function Replies(ocr: nat -> Option<string>, n: nat): (rs: Option<seq<string>>)
    ensures rs.Some? <==> forall i | 1 <= i <= n :: ocr(i).Some?
    ensures rs.Some? ==> |rs.value| == n && forall i | 0 <= i < n :: rs.value[i] == ocr(i + 1).value
  {
    if n == 0 then Some([])
    else match Replies(ocr, n - 1)
      case None => None
      case Some(rs) =>
        match ocr(n)
        case None => None
        case Some(t) => Some(rs + [t])
  }

  /** Pages 1..n are all regular files of the workspace. */
  predicate ReadablePages(m: map<string, Kind>, n: nat)
  {
    forall i | 1 <= i <= n :: IsFile(m, PageName(i))
  }

  /** One more successful call appends its reply. */
  lemma RepliesNext(ocr: nat -> Option<string>, n: nat)
    requires Replies(ocr, n).Some? && ocr(n + 1).Some?
    ensures Replies(ocr, n + 1) == Some(Replies(ocr, n).value + [ocr(n + 1).value])
  {
  }

  /** One more regular file extends the readable pages. */
  lemma ReadableNext(m: map<string, Kind>, n: nat)
    requires ReadablePages(m, n) && IsFile(m, PageName(n + 1))
    ensures ReadablePages(m, n + 1)
  {
  }

  /** What flattening is meant to yield for a workspace whose entries were `m` before the run:
      the rasteriser's failure, or the OCR text of pages 1..N each followed by a newline.
      A `.png` subdirectory left in the workspace makes the run raise. */
  function FlatSpec(m: map<string, Kind>, raster: Raster, ocr: nat -> Option<string>): FlatResult
  {
    match raster
    case RenderFailed => NoRenderer
    case Rendered(n) =>
      if PngNames(Subdirectories(m).Keys) != {} then Raised
      else match Replies(ocr, n)
        case None => Raised
        case Some(rs) => Transcribed(PagesText(rs))
  }

  /** Saving pages into a cleared workspace adds regular files only: its directories stay
      exactly the ones it had. */
  lemma SavedKeepsDirectories(m: map<string, Kind>, n: nat)
    ensures var d := Subdirectories(m);
      Subdirectories(d + PageFiles(SavablePages(d, n))) == d
  {
    var d := Subdirectories(m);
    var k := SavablePages(d, n);
    var after := d + PageFiles(k);
    forall name
      ensures name in Subdirectories(after) <==> name in d
    {
      if name in PageFiles(k) {
        var i :| 1 <= i <= k && name == PageName(i);
        assert !IsDir(d, PageName(i));
      }
    }
  }

  /** Runs do not leak into each other: whatever pages one run leaves behind, the next run
      yields what it would have yielded in the workspace the first run started from. */
  lemma RunsIndependent(m: map<string, Kind>, n: nat, raster: Raster, ocr: nat -> Option<string>)
    ensures var d := Subdirectories(m);
      FlatSpec(d + PageFiles(SavablePages(d, n)), raster, ocr) == FlatSpec(m, raster, ocr)
  {
    SavedKeepsDirectories(m, n);
  }

  /** Flattening a 5-page document and then a 2-page one leaves exactly `1.png` and `2.png`. */
  lemma FiveThenTwo(m: map<string, Kind>)
    requires PngNames(Subdirectories(m).Keys) == {}
    ensures var d := Subdirectories(m);
      var first := d + PageFiles(SavablePages(d, 5));
      var d' := Subdirectories(first);
      var second := d' + PageFiles(SavablePages(d', 2));
      PngNames(second.Keys) == PageNames(2) && |PngNames(second.Keys)| == 2
  {
    SavedKeepsDirectories(m, 5);
    var d := Subdirectories(m);
    var first := d + PageFiles(SavablePages(d, 5));
    assert Subdirectories(first) == Subdirectories(m);
    FreshPageImages(first, 2);
  }

  /** Three pages whose OCR replies are "A", "B" and "C" give "A\nB\nC\n". */
  lemma PageOrderExample(m: map<string, Kind>, ocr: nat -> Option<string>)
    requires PngNames(Subdirectories(m).Keys) == {}
    requires ocr(1) == Some("A") && ocr(2) == Some("B") && ocr(3) == Some("C")
    ensures FlatSpec(m, Rendered(3), ocr) == Transcribed("A\nB\nC\n")
  {
    var rs := ["A", "B", "C"];
    assert Replies(ocr, 1) == Some(rs[..1]) by {
      assert Replies(ocr, 0) == Some([]);
      assert [] + [ocr(1).value] == rs[..1];
    }
    assert Replies(ocr, 2) == Some(rs[..2]) by {
      assert rs[..1] + [ocr(2).value] == rs[..2];
    }
    assert Replies(ocr, 3) == Some(rs) by {
      assert rs[..2] + [ocr(3).value] == rs;
    }
    assert PagesText(rs[..1]) == "A\n" by {
      assert rs[..1][..0] == [];
    }
    assert PagesText(rs[..2]) == "A\nB\n" by {
      assert rs[..2][..1] == rs[..1];
    }
    assert PagesText(rs) == "A\nB\nC\n" by {
      assert rs[..|rs| - 1] == rs[..2];
    }
  }

  /** After clearing and writing pages 1..n into a workspace holding no `.png` directory, the
      `.png` entries are exactly `1.png`..`n.png`, n of them: nothing from an earlier run is left. */
  lemma FreshPageImages(m: map<string, Kind>, n: nat)
    requires PngNames(Subdirectories(m).Keys) == {}
    ensures SavablePages(Subdirectories(m), n) == n
    ensures PngNames((Subdirectories(m) + PageFiles(n)).Keys) == PageNames(n)
    ensures |PngNames((Subdirectories(m) + PageFiles(n)).Keys)| == n
  {
    var d := Subdirectories(m);
    forall i | 1 <= i <= n
      ensures !IsDir(d, PageName(i))
    {
      PageNameIsPng(i);
      assert PageName(i) !in PngNames(d.Keys);
    }
    CountAfterSave(d, n);
  }

  /** Counting the `.png` entries after writing n pages into a workspace of directories only. */
  lemma CountAfterSave(d: map<string, Kind>, n: nat)
    requires forall name | name in d :: d[name] == Directory
    requires forall i | 1 <= i <= n :: !IsDir(d, PageName(i))
    ensures SavablePages(d, n) == n
    ensures PngNames((d + PageFiles(n)).Keys) == PngNames(d.Keys) + PageNames(n)
    ensures |PngNames((d + PageFiles(n)).Keys)| == |PngNames(d.Keys)| + n
  {
    var pages := PageNames(n);
    assert (d + PageFiles(n)).Keys == d.Keys + pages;
    PageNamesArePng(n);
    PagesMissDirectories(d, n);
    PngNamesUnion(d.Keys, pages);
    PageNamesCount(n);
  }

  /** No page name is taken in a workspace of directories whose names no page uses. */
  lemma PagesMissDirectories(d: map<string, Kind>, n: nat)
    requires forall name | name in d :: d[name] == Directory
    requires forall i | 1 <= i <= n :: !IsDir(d, PageName(i))
    ensures d.Keys !! PageNames(n)
  {
    forall name | name in PageNames(n)
      ensures name !in d
    {
      var i :| 1 <= i <= n && name == PageName(i);
      assert !IsDir(d, PageName(i));
    }
  }

  lemma PageNamesArePng(n: nat)
    ensures PngNames(PageNames(n)) == PageNames(n)
  {
    forall name | name in PageNames(n)
      ensures EndsWith(name, ".png")
    {
      var i :| 1 <= i <= n && name == PageName(i);
      PageNameIsPng(i);
    }
  }

  lemma PngNamesUnion(a: set<string>, b: set<string>)
    requires PngNames(b) == b
    requires a !! b
    ensures PngNames(a + b) == PngNames(a) + b
    ensures |PngNames(a + b)| == |PngNames(a)| + |b|
  {
    assert PngNames(a + b) == PngNames(a) + PngNames(b);
    assert PngNames(a) !! b;
  }

  /** Writing the next page adds one new file to the pages already written. */
  lemma PageFilesNext(n: nat)
    ensures PageName(n + 1) !in PageFiles(n)
    ensures PageFiles(n + 1) == PageFiles(n)[PageName(n + 1) := RegularFile]
  {
    PageNamesNext(n);
  }

  /** Saving stops at page `idx + 1` exactly when a directory holds its name. */
  lemma SavableAt(m: map<string, Kind>, idx: nat, n: nat)
    requires idx < n && idx <= SavablePages(m, n)
    ensures IsDir(m, PageName(idx + 1)) <==> SavablePages(m, n) == idx
  {
  }

  /** One step of the saving loop: page `idx + 1` is blocked in the workspace exactly when a
      directory held its name before the run; otherwise it is written as a file. */
  lemma SaveStep(m: map<string, Kind>, idx: nat, n: nat)
    requires idx < n && idx <= SavablePages(m, n)
    ensures IsDir(m + PageFiles(idx), PageName(idx + 1)) <==> IsDir(m, PageName(idx + 1))
    ensures IsDir(m, PageName(idx + 1)) ==> SavablePages(m, n) == idx
    ensures !IsDir(m, PageName(idx + 1)) ==> idx + 1 <= SavablePages(m, n)
    ensures (m + PageFiles(idx))[PageName(idx + 1) := RegularFile] == m + PageFiles(idx + 1)
  {
    PageFilesNext(idx);
    SavableAt(m, idx, n);
    MergeUpdate(m, PageFiles(idx), PageName(idx + 1), RegularFile);
  }

  lemma MergeUpdate(a: map<string, Kind>, b: map<string, Kind>, key: string, v: Kind)
    ensures (a + b)[key := v] == a + b[key := v]
  {
  }

  /** A page that could not be saved was blocked by a `.png` directory. */
  lemma BlockedByPngDirectory(d: map<string, Kind>, n: nat)
    requires SavablePages(d, n) < n
    ensures PngNames(d.Keys) != {}
  {
    var k := SavablePages(d, n);
    PageNameIsPng(k + 1);
    assert PageName(k + 1) in PngNames(d.Keys);
  }

  /** After writing pages 1..n, those pages are regular files; when a `.png` directory is
      also present, the page after them is not. */
  lemma ReadableAfterSave(d: map<string, Kind>, n: nat)
    requires forall name | name in d :: d[name] == Directory
    ensures ReadablePages(d + PageFiles(n), n)
    ensures !IsFile(d + PageFiles(n), PageName(n + 1))
  {
    var m := d + PageFiles(n);
    forall i | 1 <= i <= n
      ensures IsFile(m, PageName(i))
    {
      assert PageName(i) in PageNames(n);
    }
    PageNamesNext(n);
  }

  class Workspace {
    /** Whether the directory exists. */
    var present: bool
    /** The directory's entries, by name. */
    var entries: map<string, Kind>

    ghost predicate Valid()
      reads this
    {
      !present ==> entries == map[]
    }

    constructor (present: bool, entries: map<string, Kind>)
      requires !present ==> entries == map[]
      ensures Valid() && this.present == present && this.entries == entries
    {
      this.present := present;
      this.entries := entries;
    }

    /** Remove every regular file of the directory, keep the subdirectories, and create the
        directory if it is missing. */
    method Clear()
      requires Valid()
      modifies this
      ensures Valid() && present
      ensures entries == Subdirectories(old(entries))
    {
      if present {
        var todo := entries.Keys;
        while todo != {}
          invariant todo <= old(entries).Keys
          invariant forall name :: name in entries <==> name in todo || IsDir(old(entries), name)
          invariant forall name | name in entries :: entries[name] == old(entries)[name]
          decreases todo
        {
          var name :| name in todo;
          if entries[name] == RegularFile {
            entries := entries - {name};
          }
          todo := todo - {name};
        }
      }
      present := true;
    }

    /** `pdf_to_image`: save page `idx + 1` as `{idx + 1}.png` for every rendered page. Saving
        onto a name that a directory holds raises, after the pages before it were written. */
    method SavePageImages(raster: Raster) returns (r: SaveOutcome)
      requires Valid() && present
      modifies this
      ensures Valid() && present
      ensures raster.RenderFailed? ==> r == Unavailable && entries == old(entries)
      ensures raster.Rendered? ==>
        var k := SavablePages(old(entries), raster.pages);
        && entries == old(entries) + PageFiles(k)
        && (r == Written <==> k == raster.pages)
        && (r == Written || r == WriteRaised)
    {
      if raster.RenderFailed? {
        return Unavailable;
      }
      var n := raster.pages;
      ghost var m := entries;
      var idx := 0;
      while idx < n
        invariant idx <= SavablePages(m, n) <= n
        invariant entries == m + PageFiles(idx)
        invariant present
      {
        var name := PageName(idx + 1);
        SaveStep(m, idx, n);
        if name in entries && entries[name] == Directory {
          assert SavablePages(m, n) == idx;
          return WriteRaised;
        }
        entries := entries[name := RegularFile];
        idx := idx + 1;
      }
      assert SavablePages(m, n) == n;
      return Written;
    }

    /** The names of the entries that end in `.png`, one per entry, in listing order. */
    method ListImages() returns (images: seq<string>)
      ensures forall name :: name in images <==> name in PngNames(entries.Keys)
      ensures |images| == |PngNames(entries.Keys)|
    {
      var todo := entries.Keys;
      images := [];
      while todo != {}
        invariant todo <= entries.Keys
        invariant forall name :: name in images <==> name in PngNames(entries.Keys - todo)
        invariant |images| == |PngNames(entries.Keys - todo)|
        decreases todo
      {
        var name :| name in todo;
        var done := entries.Keys - todo;
        if EndsWith(name, ".png") {
          assert PngNames(done + {name}) == PngNames(done) + {name};
          images := images + [name];
        } else {
          assert PngNames(done + {name}) == PngNames(done);
        }
        todo := todo - {name};
        assert entries.Keys - todo == done + {name};
      }
      assert entries.Keys - todo == entries.Keys;
    }

    /** The OCR text of pages 1..count, each followed by a newline, in page order; `None` when
        a page image is not a regular file or an OCR call fails. */
    method Transcribe(count: nat, ocr: nat -> Option<string>) returns (r: Option<string>)
      ensures r == if ReadablePages(entries, count) && Replies(ocr, count).Some?
                   then Some(PagesText(Replies(ocr, count).value))
                   else None
    {
      var text := "";
      var i := 0;
      while i < count
        invariant i <= count
        invariant ReadablePages(entries, i) && Replies(ocr, i).Some?
        invariant text == PagesText(Replies(ocr, i).value)
      {
        var name := PageName(i + 1);
        if !(name in entries && entries[name] == RegularFile) {
          assert !IsFile(entries, PageName(i + 1));
          return None;
        }
        var reply := ocr(i + 1);
        if reply.None? {
          assert ocr(i + 1).None?;
          return None;
        }
        ghost var before := Replies(ocr, i).value;
        RepliesNext(ocr, i);
        ReadableNext(entries, i);
        PagesTextSnoc(before, reply.value);
        text := text + (reply.value + "\n");
        i := i + 1;
      }
      return Some(text);
    }

    /** `flat_pdf_to_text`: clear the workspace, rasterise, count the `.png` entries and
        transcribe that many pages. */
    method FlatPdfToText(raster: Raster, ocr: nat -> Option<string>) returns (r: FlatResult)
      requires Valid()
      modifies this
      ensures Valid() && present
      ensures r == FlatSpec(old(entries), raster, ocr)
      ensures raster.RenderFailed? ==> entries == Subdirectories(old(entries))
      ensures raster.Rendered? ==>
        var d := Subdirectories(old(entries));
        entries == d + PageFiles(SavablePages(d, raster.pages))
    {
      ghost var d := Subdirectories(entries);
      Clear();
      var saved := SavePageImages(raster);
      if saved == Unavailable {
        return NoRenderer;
      }
      var n := raster.pages;
      if saved == WriteRaised {
        BlockedByPngDirectory(d, n);
        return Raised;
      }
      var images := ListImages();
      var count := |images|;
      CountAfterSave(d, n);
      ReadableAfterSave(d, n);
      var text := Transcribe(count, ocr);
      if PngNames(d.Keys) != {} {
        assert !ReadablePages(entries, count);
        assert FlatSpec(old(entries), raster, ocr) == Raised;
      } else {
        assert count == n;
      }
      if text.None? {
        return Raised;
      }
      return Transcribed(text.value);
    }
  }
}

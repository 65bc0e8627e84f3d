/**
 * The naming logic of the batch driver: which directory entries are taken as input, the
 * base name of an input path, and the name of the JSON file its result is saved under.
 */
module Batch {
  import opened Base
  import opened Scratch
  import opened Acquisition

  const INPUT_DIR := "./INPUT/"
  const OUTPUT_DIR := "./OUTPUT/"

  /** One entry of `os.listdir(INPUT_DIR)`, with what `os.path.isfile` says of it. */
  datatype Listed = Listed(name: string, kind: Kind)

  /** `os.path.join(dir, name)` for POSIX paths. */
  function JoinPath(dir: string, name: string): (p: string)
    ensures '/' !in name && dir != [] && dir[|dir| - 1] == '/' ==> p == dir + name
  {
    if |name| > 0 && name[0] == '/' then name
    else if dir == [] || dir[|dir| - 1] == '/' then dir + name
    else dir + "/" + name
  }

  /** The entry is a regular file whose joined path ends in ".pdf", ignoring case. */
  predicate IsPdfInput(f: Listed)
  {
    f.kind == RegularFile && HasPdfExtension(JoinPath(INPUT_DIR, f.name))
  }

  /** The input paths of a listing: the joined paths of its PDF files, in listing order. */
  function PdfInputs(files: seq<Listed>): (inputs: seq<string>)
    ensures |inputs| <= |files|
  {
    if files == [] then []
    else
      var init := PdfInputs(files[..|files| - 1]);
      var f := files[|files| - 1];
      if IsPdfInput(f) then init + [JoinPath(INPUT_DIR, f.name)] else init
  }

  /** The selection loop of the batch driver. */
  method SelectInputs(files: seq<Listed>) returns (inputs: seq<string>)
    ensures inputs == PdfInputs(files)
  {
    inputs := [];
    for i := 0 to |files|
      invariant inputs == PdfInputs(files[..i])
    {
      assert files[..i + 1][..i] == files[..i];
      var realName := JoinPath(INPUT_DIR, files[i].name);
      if files[i].kind == RegularFile && HasPdfExtension(realName) {
        inputs := inputs + [realName];
      }
    }
    assert files[..|files|] == files;
  }

  /** A path is an input exactly when some listed PDF file joins to it. */
  lemma {:induction false} PdfInputsMembers(files: seq<Listed>, p: string)
    ensures p in PdfInputs(files) <==> exists f | f in files :: IsPdfInput(f) && p == JoinPath(INPUT_DIR, f.name)
  {
    if files != [] {
      var init := files[..|files| - 1];
      var last := files[|files| - 1];
      PdfInputsMembers(init, p);
      assert files == init + [last];
      assert forall f :: f in files <==> f in init || f == last;
    }
  }

  /** Every input passes the extension check of `get_content`. */
  lemma {:induction false} PdfInputsArePdf(files: seq<Listed>)
    ensures forall p | p in PdfInputs(files) :: HasPdfExtension(p)
  {
    if files != [] {
      PdfInputsArePdf(files[..|files| - 1]);
    }
  }

  /** `p.rfind("/")`: the index of the last slash, or -1. */
  function LastSlash(p: string): (k: int)
    ensures -1 <= k < |p|
    ensures k >= 0 ==> p[k] == '/'
    ensures forall i | k < i < |p| :: p[i] != '/'
  {
    if p == [] then -1
    else if p[|p| - 1] == '/' then |p| - 1
    else LastSlash(p[..|p| - 1])
  }

  /** `p[p.rfind("/") + 1:]`: the longest suffix of `p` without a slash. */
  function Basename(p: string): (b: string)
    ensures '/' !in b
    ensures |b| <= |p| && p[|p| - |b|..] == b
    ensures |b| < |p| ==> p[|p| - |b| - 1] == '/'
    ensures '/' !in p ==> b == p
  {
    p[LastSlash(p) + 1..]
  }

  /** The result file of input path `p`: a `.json` file directly inside the output directory,
      named after the base name of `p`. */
  function OutputName(p: string): (o: string)
    ensures |OUTPUT_DIR| + 5 <= |o|
    ensures o[..|OUTPUT_DIR|] == OUTPUT_DIR && o[|o| - 5..] == ".json"
    ensures o[|OUTPUT_DIR|..|o| - 5] == Basename(p) && '/' !in o[|OUTPUT_DIR|..|o| - 5]
  {
    ThreeParts(OUTPUT_DIR, Basename(p), ".json");
    OUTPUT_DIR + Basename(p) + ".json"
  }

  /** The three parts of a concatenation can be sliced back out of it. */
  lemma ThreeParts(a: string, b: string, c: string)
    ensures var s := a + b + c;
      s[..|a|] == a && s[|a|..|s| - |c|] == b && s[|s| - |c|..] == c
  {
  }

  /** The base name of `dir + name` is `name` when `dir` ends in a slash and `name` has none. */
  lemma BasenameOfJoin(dir: string, name: string)
    requires dir != [] && dir[|dir| - 1] == '/'
    requires '/' !in name
    ensures Basename(dir + name) == name
  {
    var p := dir + name;
    var k := LastSlash(p);
    assert p[|dir| - 1] == '/';
    assert k == |dir| - 1;
  }

  /** A listed file `name` is saved as `./OUTPUT/name.json`, and two different listed names
      are never saved under the same output name. */
  lemma OutputNameOfInput(a: string, b: string)
    requires '/' !in a && '/' !in b
    ensures OutputName(JoinPath(INPUT_DIR, a)) == OUTPUT_DIR + a + ".json"
    ensures a != b ==> OutputName(JoinPath(INPUT_DIR, a)) != OutputName(JoinPath(INPUT_DIR, b))
  {
    var pa, pb := JoinPath(INPUT_DIR, a), JoinPath(INPUT_DIR, b);
    BasenameOfJoin(INPUT_DIR, a);
    BasenameOfJoin(INPUT_DIR, b);
    var oa, ob := OutputName(pa), OutputName(pb);
    assert oa[|OUTPUT_DIR|..|oa| - 5] == a;
    assert ob[|OUTPUT_DIR|..|ob| - 5] == b;
  }
}

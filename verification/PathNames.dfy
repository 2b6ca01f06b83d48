/** The part of `pathlib.PurePosixPath` that the program relies on. */
module PathNames {
  import opened Text

  /** A parsed path: the root ("", "/" or "//") and the components. */
  datatype Path = Path(root: string, parts: seq<string>)

  function SplitSlash(s: string): (r: seq<string>)
    ensures |r| >= 1
    decreases |s|
  {
    var k := IndexOf(s, '/');
    if k == |s| then [s] else [s[..k]] + SplitSlash(s[k + 1..])
  }

  /** Empty components and single dots disappear. */
  function Kept(parts: seq<string>): seq<string> {
    if parts == [] then []
    else (if parts[0] == "" || parts[0] == "." then [] else [parts[0]]) + Kept(parts[1..])
  }

  function Parse(s: string): Path {
    Path(if "//" <= s && !("///" <= s) then "//" else if "/" <= s then "/" else "", Kept(SplitSlash(s)))
  }

  function ToString(p: Path): string {
    if p.root == "" && p.parts == [] then "." else p.root + Join("/", p.parts)
  }

  /** `p / s` */
  function Div(p: Path, s: string): Path {
    var q := Parse(s);
    if q.root != "" then q else Path(p.root, p.parts + q.parts)
  }

  function Name(p: Path): string { if p.parts == [] then "" else p.parts[|p.parts| - 1] }

  /** `name.rfind(".")`, with the length standing for "none". */
  function LastDot(name: string): (k: nat)
    ensures k <= |name|
  {
    if name == "" then 0
    else if name[|name| - 1] == '.' then |name| - 1
    else
      var k := LastDot(name[..|name| - 1]);
      if k == |name| - 1 then |name| else k
  }

  function StemOfName(name: string): string {
    var k := LastDot(name);
    if 0 < k < |name| - 1 then name[..k] else name
  }

  /** `Path(s).stem` */
  function Stem(s: string): string { StemOfName(Name(Parse(s))) }

  predicate NoSlash(s: string) { forall i | 0 <= i < |s| :: s[i] != '/' }

  lemma {:induction false} SplitHasNoSlash(s: string)
    ensures forall i | 0 <= i < |SplitSlash(s)| :: NoSlash(SplitSlash(s)[i])
    decreases |s|
  {
    var k := IndexOf(s, '/');
    IndexOfFirst(s, '/');
    if k < |s| { SplitHasNoSlash(s[k + 1..]); }
  }

  lemma {:induction false} KeptFrom(parts: seq<string>)
    ensures forall i | 0 <= i < |Kept(parts)| ::
      Kept(parts)[i] in parts && Kept(parts)[i] != "" && Kept(parts)[i] != "."
    decreases |parts|
  {
    if parts != [] { KeptFrom(parts[1..]); }
  }

  lemma StemHasNoSlash(s: string)
    ensures NoSlash(Stem(s))
  {
    SplitHasNoSlash(s);
    KeptFrom(SplitSlash(s));
    var name := Name(Parse(s));
    assert NoSlash(name);
  }

  lemma SplitFirst(a: string, rest: string)
    requires NoSlash(a)
    ensures SplitSlash(a + "/" + rest) == [a] + SplitSlash(rest)
  {
    var s := a + "/" + rest;
    assert s == a + ['/'] + rest;
    IndexOfAfter(a, rest, '/');
    assert s[..|a|] == a && s[|a| + 1..] == rest;
  }

  lemma SplitWhole(s: string)
    requires NoSlash(s)
    ensures SplitSlash(s) == [s]
  {
    IndexOfFirst(s, '/');
  }

  lemma {:induction false} SplitSnoc(dir: string, y: string)
    requires NoSlash(y)
    ensures SplitSlash(dir + "/" + y) == SplitSlash(dir) + [y]
    decreases |dir|
  {
    hide SplitSlash, IndexOf;
    var k := IndexOf(dir, '/');
    IndexOfFirst(dir, '/');
    if k == |dir| {
      SplitWhole(dir);
      SplitWhole(y);
      SplitFirst(dir, y);
    } else {
      var a, rest := dir[..k], dir[k + 1..];
      assert dir == a + "/" + rest;
      SplitFirst(a, rest);
      SplitFirst(a, rest + "/" + y);
      assert dir + "/" + y == a + "/" + (rest + "/" + y);
      SplitSnoc(rest, y);
    }
  }

  lemma {:induction false} KeptSnoc(parts: seq<string>, y: string)
    requires y != "" && y != "."
    ensures Kept(parts + [y]) == Kept(parts) + [y]
    decreases |parts|
  {
    if parts == [] {
      assert Kept([y]) == [y] + Kept([]);
    } else {
      assert (parts + [y])[1..] == parts[1..] + [y];
      KeptSnoc(parts[1..], y);
    }
  }

  /** The stem of a path is that of the file name behind its last slash. */
  lemma StemBehind(dir: string, y: string)
    requires NoSlash(y) && y != "" && y != "."
    ensures Stem(dir + "/" + y) == StemOfName(y)
  {
    hide StemOfName;
    SplitSnoc(dir, y);
    KeptSnoc(SplitSlash(dir), y);
  }

  /** A component without a slash stands for itself. */
  lemma ParseComponent(s: string)
    requires NoSlash(s)
    ensures Parse(s) == Path("", if s == "" || s == "." then [] else [s])
  {
    IndexOfFirst(s, '/');
    assert IndexOf(s, '/') == |s|;
    assert SplitSlash(s) == [s];
    assert !("/" <= s) by { assert s == "" || s[0] != "/"[0]; }
    assert Kept([s]) == (if s == "" || s == "." then [] else [s]) + Kept([]);
  }

  lemma {:induction false} JoinSnoc(parts: seq<string>, x: string)
    ensures Join("/", parts + [x]) == if parts == [] then x else Join("/", parts) + "/" + x
    decreases |parts|
  {
    if |parts| == 1 {
      assert (parts + [x])[1..] == [x];
    } else if |parts| > 1 {
      assert (parts + [x])[1..] == parts[1..] + [x];
      JoinSnoc(parts[1..], x);
    }
  }

  lemma DivComponent(p: Path, s: string)
    requires NoSlash(s)
    ensures Div(p, s) == if s == "" || s == "." then p else Path(p.root, p.parts + [s])
  {
    ParseComponent(s);
    assert p.parts + [] == p.parts;
  }

  /** The text of a directory followed by one more component. */
  function Under(p: Path): string {
    if p.parts == [] then p.root else p.root + Join("/", p.parts) + "/"
  }

  lemma ToStringUnder(p: Path, x: string)
    ensures ToString(Path(p.root, p.parts + [x])) == Under(p) + x
  {
    JoinSnoc(p.parts, x);
  }

  // ---------------------------------------------------------------------
  // Output names: convert_disk against the dry run
  // ---------------------------------------------------------------------

  /** How a conversion or a merge ended. */
  datatype ConversionResult = ConversionResult(success: bool, outputPath: Option<string>, errors: seq<string>)

  datatype DiskFormat = Qcow2 | Raw

  function Extension(f: DiskFormat): string { match f case Qcow2 => "qcow2" case Raw => "raw" }

  /** `outdir / f"{source.stem}.{ext}"` (convert_disk) */
  function OutputPath(outdir: string, source: string, f: DiskFormat): string {
    ToString(Div(Parse(outdir), Stem(source) + "." + Extension(f)))
  }

  /** `f"{Path(output_dir) / Path(d.path).stem}.{disk_format}"` (dry run) */
  function PreviewPath(outdir: string, source: string, f: DiskFormat): string {
    ToString(Div(Parse(outdir), Stem(source))) + "." + Extension(f)
  }

  lemma ExtensionIs(f: DiskFormat)
    ensures "." + Extension(f) == if f == Qcow2 then ".qcow2" else ".raw"
  {
  }

  /** The name of the output file: the stem of the source under the output directory. */
  lemma OutputIsUnder(outdir: string, source: string, f: DiskFormat)
    ensures OutputPath(outdir, source, f)
         == Under(Parse(outdir)) + (Stem(source) + (if f == Qcow2 then ".qcow2" else ".raw"))
  {
    ExtensionIs(f);
    hide Stem, Parse, Under, ToString, Div;
    var x := Stem(source) + "." + Extension(f);
    StemHasNoSlash(source);
    assert NoSlash(x) && |x| >= 2;
    DivComponent(Parse(outdir), x);
    ToStringUnder(Parse(outdir), x);
    assert x == Stem(source) + ("." + Extension(f));
  }

  /** The name that the dry run shows: without a stem, or with a single dot for one, that
      of the directory itself. */
  lemma PreviewIsDiv(outdir: string, source: string, f: DiskFormat)
    ensures PreviewPath(outdir, source, f) ==
      (if Stem(source) in ["", "."] then ToString(Parse(outdir)) else Under(Parse(outdir)) + Stem(source))
      + (if f == Qcow2 then ".qcow2" else ".raw")
  {
    ExtensionIs(f);
    hide Stem, Parse, Under, ToString, Extension, Div;
    var p, stem := Parse(outdir), Stem(source);
    StemHasNoSlash(source);
    DivComponent(p, stem);
    ToStringUnder(p, stem);
    assert PreviewPath(outdir, source, f) == ToString(Div(p, stem)) + ("." + Extension(f));
  }

  /** The previewed name is the name written, except for a source without a stem
      outside a root directory and for a source whose stem is a single dot
      outside the current directory. */
  lemma PreviewIff(outdir: string, source: string, f: DiskFormat)
    ensures PreviewPath(outdir, source, f) == OutputPath(outdir, source, f) <==>
      (Stem(source) !in ["", "."]
       || (Stem(source) == "" && Parse(outdir).parts == [] && Parse(outdir).root != "")
       || (Stem(source) == "." && Parse(outdir) == Path("", [])))
  {
    PreviewIsDiv(outdir, source, f);
    OutputIsUnder(outdir, source, f);
    ExtensionIs(f);
    StemParts(Parse(outdir), Stem(source), "." + Extension(f), OutputPath(outdir, source, f),
              Stem(source) + ("." + Extension(f)));
  }

  lemma StemParts(p: Path, stem: string, ext: string, output: string, file: string)
    requires |ext| >= 2 && ext[0] == '.' && ext[1] != '.' && p.root in ["", "/", "//"]
    requires file == stem + ext && output == Under(p) + file
    ensures (if stem in ["", "."] then ToString(p) else Under(p) + stem) + ext == output <==>
      (stem !in ["", "."] || (stem == "" && p.parts == [] && p.root != "") || (stem == "." && p == Path("", [])))
  {
    if stem in ["", "."] {
      DegenerateStem(p, stem, ext);
    } else {
      assert Under(p) + stem + ext == Under(p) + (stem + ext);
    }
  }

  lemma DegenerateStem(p: Path, stem: string, ext: string)
    requires (stem == "" || stem == ".") && |ext| >= 2 && ext[0] == '.' && ext[1] != '.'
    requires p.root in ["", "/", "//"]
    ensures ToString(p) + ext == Under(p) + (stem + ext) <==>
      ((stem == "" && p.parts == [] && p.root != "") || (stem == "." && p == Path("", [])))
  {
    var a, b := ToString(p) + ext, Under(p) + (stem + ext);
    if p.parts != [] {
      assert |b| == |a| + 1 + |stem|;
    } else if p.root != "" {
      assert Join("/", p.parts) == "";
      assert ToString(p) == p.root;
    } else {
      assert a == "." + ext && b == stem + ext;
    }
  }

  lemma StemOfComponent(s: string)
    requires NoSlash(s) && s != "" && s != "."
    ensures Stem(s) == StemOfName(s)
  {
    ParseComponent(s);
  }

  /** `..vmdk` has the stem `.`, which the dry run takes for the directory itself. */
  lemma PreviewDiffers(outdir: string, source: string, f: DiskFormat)
    requires outdir == "out" && source == "..vmdk"
    ensures PreviewPath(outdir, source, f) != OutputPath(outdir, source, f)
  {
    hide PreviewPath, OutputPath, Parse;
    StemOfComponent(source);
    LastDotOf(source, 1);
    assert source[..1] == ".";
    ParseComponent(outdir);
    PreviewIff(outdir, source, f);
  }

  /** The last dot of a name. */
  lemma {:induction false} LastDotOf(name: string, k: nat)
    requires k < |name| && name[k] == '.' && forall i | k < i < |name| :: name[i] != '.'
    ensures LastDot(name) == k
    decreases |name|
  {
    if k < |name| - 1 { LastDotOf(name[..|name| - 1], k); }
  }

  /** A name split at a dot inside it that is the last one. */
  predicate IsSplit(name: string, stem: string, ext: string) {
    stem != "" && ext != "" && (forall i | 0 <= i < |ext| :: ext[i] != '.') && name == stem + "." + ext
  }

  /** What a stem is: the name up to its last dot, when something stands before and
      behind that dot, and else the whole name. */
  lemma StemMeaning(name: string)
    ensures forall stem, ext | IsSplit(name, stem, ext) :: StemOfName(name) == stem
    ensures (forall stem, ext :: !IsSplit(name, stem, ext)) ==> StemOfName(name) == name
  {
    forall stem, ext | IsSplit(name, stem, ext) ensures StemOfName(name) == stem {
      assert forall i | |stem| < i < |name| :: name[i] == ext[i - |stem| - 1];
      LastDotOf(name, |stem|);
      assert name[..|stem|] == stem;
    }
    var k := LastDot(name);
    LastDotIs(name);
    if 0 < k < |name| - 1 {
      assert name == name[..k] + "." + name[k + 1..];
      assert IsSplit(name, name[..k], name[k + 1..]);
    }
  }

  lemma {:induction false} LastDotIs(name: string)
    ensures var k := LastDot(name);
      (k < |name| ==> name[k] == '.') && forall i | k < i < |name| :: name[i] != '.'
    decreases |name|
  {
    if name != "" && name[|name| - 1] != '.' { LastDotIs(name[..|name| - 1]); }
  }

  lemma Cancel(u: string, a: string, b: string, e: string)
    requires u + (a + e) == u + (b + e)
    ensures a == b
  {
    assert (u + (a + e))[|u|..] == a + e && (u + (b + e))[|u|..] == b + e;
    assert (a + e)[..|a|] == a && (b + e)[..|b|] == b;
  }

  /** Two sources are written to the same file exactly when their stems agree. */
  lemma SameOutputIff(outdir: string, s: string, t: string, f: DiskFormat)
    ensures OutputPath(outdir, s, f) == OutputPath(outdir, t, f) <==> Stem(s) == Stem(t)
  {
    hide Stem, Under, Parse, OutputPath;
    OutputIsUnder(outdir, s, f);
    OutputIsUnder(outdir, t, f);
    ExtensionIs(f);
    if OutputPath(outdir, s, f) == OutputPath(outdir, t, f) {
      Cancel(Under(Parse(outdir)), Stem(s), Stem(t), "." + Extension(f));
    }
  }
}

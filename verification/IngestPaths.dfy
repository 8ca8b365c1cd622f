/**
 Namespace paths and the collision suffix: names with different suffixes are different paths,
 through normalisation.
 */
module IngestPaths {
  import opened JsonPrinting
  import opened JsonRoundTrip
  import opened Sequences

  /** Where the first slash is; the length when there is none. */
  function FirstSlash(p: string): (k: nat)
    ensures k <= |p| && '/' !in p[..k] && (k < |p| ==> p[k] == '/')
  {
    if p == "" || p[0] == '/' then 0 else 1 + FirstSlash(p[1..])
  }

  function Split(p: string): seq<string>
    decreases |p|
  {
    if p == "" then []
    else if p[0] == '/' then Split(p[1..])
    else [p[..FirstSlash(p)]] + Split(p[FirstSlash(p)..])
  }

  /** "." goes, and ".." takes the component before it along. */
  function Fold(components: seq<string>): seq<string>
  {
    if components == [] then []
    else
      var before, last := Fold(components[..|components| - 1]), components[|components| - 1];
      if last == "." then before
      else if last == ".." then if before == [] then [] else before[..|before| - 1]
      else before + [last]
  }

  function Join(components: seq<string>): string
  {
    if components == [] then "" else Join(components[..|components| - 1]) + "/" + components[|components| - 1]
  }

  function NormalizePath(p: string): string
  {
    var components := Fold(Split(p));
    if components == [] then "/" else Join(components)
  }

  /** Its decimal digits as characters. */
  function DecimalText(n: nat): string { seq(|Decimal(n)|, i requires 0 <= i < |Decimal(n)| => Decimal(n)[i] as char) }

  /** The end of the path after its last slash. */
  function FileName(p: string): (name: string)
    ensures '/' !in name && |name| <= |p|
  {
    if p == "" || p[|p| - 1] == '/' then "" else FileName(p[..|p| - 1]) + [p[|p| - 1]]
  }

  /** Where the extension starts in a file name: its last dot, unless that is the first character. */
  function ExtensionAt(name: string): (k: nat)
    ensures k <= |name|
  {
    if name == ".." then 2 else
    var dot := LastDot(name, |name|);
    if dot == 0 then |name| else dot
  }

  function LastDot(name: string, n: nat): (k: nat)
    requires n <= |name|
    ensures k <= |name|
  {
    if n == 0 then |name| else if name[n - 1] == '.' then n - 1 else LastDot(name, n - 1)
  }

  function Stem(p: string): string { FileName(p)[..ExtensionAt(FileName(p))] }

  function Extension(p: string): string { FileName(p)[ExtensionAt(FileName(p))..] }

  /** Up to the last slash; what normalisation makes of it is the source's parent path. */
  function Parent(p: string): string { p[..|p| - |FileName(p)|] }

  function SuffixedName(p: string, suffix: nat): string { Stem(p) + " (" + DecimalText(suffix) + ")" + Extension(p) }

  function AppendCollisionSuffix(p: string, suffix: nat): string
  {
    NormalizePath(Parent(p) + "/" + SuffixedName(p, suffix))
  }

  // Suffixes make distinct paths

  lemma FirstSlashConcat(a: string, b: string)
    requires a != "" && b != "" && b[0] == '/'
    ensures FirstSlash(a + b) == FirstSlash(a)
  {
    if a[0] != '/' {
      assert (a + b)[1..] == a[1..] + b;
      if a[1..] != "" {
        FirstSlashConcat(a[1..], b);
      } else {
        assert a[1..] + b == b;
      }
    }
  }

  lemma {:induction false} SplitConcat(a: string, b: string)
    requires b != "" && b[0] == '/'
    ensures Split(a + b) == Split(a) + Split(b)
    decreases |a|
  {
    hide FirstSlash;
    if a == "" {
      assert a + b == b;
    } else if a[0] == '/' {
      assert (a + b)[1..] == a[1..] + b;
      SplitConcat(a[1..], b);
    } else {
      var k := FirstSlash(a);
      FirstSlashConcat(a, b);
      assert (a + b)[..k] == a[..k] && (a + b)[k..] == a[k..] + b;
      SplitConcat(a[k..], b);
      Associates([a[..k]], Split(a[k..]), Split(b));
    }
  }

  lemma {:induction false} NoSlash(name: string)
    requires '/' !in name
    ensures FirstSlash(name) == |name|
  {
    if name != "" {
      NoSlash(name[1..]);
    }
  }

  lemma SplitName(name: string)
    requires name != "" && '/' !in name
    ensures Split("/" + name) == [name]
  {
    NoSlash(name);
    assert ("/" + name)[1..] == name;
    assert name[0] != '/' && name[..|name|] == name && name[|name|..] == "";
    assert Split(name) == [name];
  }

  /** A plain name at the end of a path is the last component of its normal form. */
  lemma NormalizeName(directory: string, name: string)
    requires name != "" && name != "." && name != ".." && '/' !in name
    ensures NormalizePath(directory + "/" + name) == Join(Fold(Split(directory))) + "/" + name
  {
    hide Split, Fold, Join;
    SplitConcat(directory, "/" + name);
    SplitName(name);
    assert directory + ("/" + name) == directory + "/" + name;
    FoldName(Split(directory), name);
    JoinName(Fold(Split(directory)), name);
  }

  lemma FoldName(components: seq<string>, name: string)
    requires name != "." && name != ".."
    ensures Fold(components + [name]) == Fold(components) + [name]
  {
    assert (components + [name])[..|components|] == components;
  }

  lemma JoinName(components: seq<string>, name: string)
    ensures Join(components + [name]) == Join(components) + "/" + name
  {
    assert (components + [name])[..|components|] == components;
  }

  lemma DecimalInjective(a: nat, b: nat)
    requires DecimalText(a) == DecimalText(b)
    ensures a == b
  {
    var s, t := Decimal(a), Decimal(b);
    assert |s| == |DecimalText(a)| == |t|;
    forall i | 0 <= i < |s|
      ensures s[i] == t[i]
    {
      assert DecimalText(a)[i] == DecimalText(b)[i];
    }
    assert s == t;
    DecimalDigits(a);
    DecimalDigits(b);
  }

  lemma DecimalNonEmpty(n: nat)
    ensures DecimalText(n) != "" && '/' !in DecimalText(n)
  {
    DecimalDigits(n);
  }

  lemma SuffixedPlain(p: string, suffix: nat)
    ensures var name := SuffixedName(p, suffix); |name| >= 3 && '/' !in name
  {
    DecimalNonEmpty(suffix);
  }

  /** Different suffixes give different destinations. */
  lemma SuffixesDistinct(p: string, a: nat, b: nat)
    requires AppendCollisionSuffix(p, a) == AppendCollisionSuffix(p, b)
    ensures a == b
  {
    SuffixedPlain(p, a);
    SuffixedPlain(p, b);
    NormalizeName(Parent(p), SuffixedName(p, a));
    NormalizeName(Parent(p), SuffixedName(p, b));
    hide Join, Fold, Split, NormalizePath, Parent, Stem, Extension, DecimalText;
    var directory := Join(Fold(Split(Parent(p))));
    var before, after := directory + "/" + Stem(p) + " (", ")" + Extension(p);
    var x, y := DecimalText(a), DecimalText(b);
    Regroup(directory, Stem(p), x, Extension(p));
    Regroup(directory, Stem(p), y, Extension(p));
    Middle(before, x, y, after);
    DecimalInjective(a, b);
  }

  lemma Regroup(directory: string, stem: string, x: string, extension: string)
    ensures directory + "/" + (stem + " (" + x + ")" + extension) == directory + "/" + stem + " (" + x + (")" + extension)
  {
    assert stem + " (" + x + ")" + extension == stem + (" (" + x + (")" + extension));
  }

  lemma Middle(before: string, x: string, y: string, after: string)
    requires before + x + after == before + y + after
    ensures x == y
  {
    var s, t := before + x + after, before + y + after;
    assert |x| == |y|;
    assert s[|before|..|before| + |x|] == x && t[|before|..|before| + |y|] == y;
  }

  // Where the suffix goes

  lemma {:induction false} FileNameAt(directory: string, name: string)
    requires '/' !in name
    ensures FileName(directory + "/" + name) == name
    decreases |name|
  {
    var p := directory + "/" + name;
    if name == "" {
      assert p[|p| - 1] == '/';
    } else {
      FileNameAt(directory, name[..|name| - 1]);
      assert p[..|p| - 1] == directory + "/" + name[..|name| - 1];
      assert p[|p| - 1] == name[|name| - 1] != '/';
      assert name == name[..|name| - 1] + [name[|name| - 1]];
    }
  }

  lemma {:induction false} LastDotAt(name: string, n: nat, k: nat)
    requires k < n <= |name| && name[k] == '.' && '.' !in name[k + 1..n]
    ensures LastDot(name, n) == k
    decreases n
  {
    if k < n - 1 {
      assert name[n - 1] == name[k + 1..n][n - k - 2];
      assert name[k + 1..n - 1] == name[k + 1..n][..n - k - 2];
      LastDotAt(name, n - 1, k);
    }
  }

  lemma {:induction false} NoDot(name: string, n: nat)
    requires n <= |name| && '.' !in name[..n]
    ensures LastDot(name, n) == |name|
    decreases n
  {
    if n > 0 {
      assert name[n - 1] == name[..n][n - 1] && name[..n - 1] == name[..n][..n - 1];
      NoDot(name, n - 1);
    }
  }

  /** A name with an extension: it starts at the last dot, which is not the first character. */
  predicate HasExtension(stem: string, extension: string)
  {
    && stem != "" && extension != "" && extension[0] == '.' && '.' !in extension[1..]
    && stem + extension != ".."
  }

  /** A name without one: no dot but perhaps a leading one, or two dots alone. */
  predicate NoExtension(name: string) { '.' !in name || (name[0] == '.' && '.' !in name[1..]) || name == ".." }

  lemma ExtensionExact(stem: string, extension: string)
    requires HasExtension(stem, extension) || (NoExtension(stem) && extension == "")
    ensures ExtensionAt(stem + extension) == |stem|
  {
    var name := stem + extension;
    if HasExtension(stem, extension) {
      assert name[|stem| + 1..] == extension[1..] && name[|stem|] == '.';
      LastDotAt(name, |name|, |stem|);
    } else {
      assert name == stem;
      if '.' !in stem {
        NoDot(name, |name|);
      } else if stem != ".." {
        LastDotAt(name, |name|, 0);
      }
    }
  }

  /** The suffix goes between the stem and the extension of the last component, in the same directory. */
  lemma SuffixPlaced(directory: string, stem: string, extension: string, suffix: nat)
    requires HasExtension(stem, extension) || (NoExtension(stem) && extension == "")
    requires '/' !in stem && '/' !in extension
    ensures AppendCollisionSuffix(directory + "/" + stem + extension, suffix) ==
            Join(Fold(Split(directory))) + "/" + stem + " (" + DecimalText(suffix) + ")" + extension
  {
    var name, p := stem + extension, directory + "/" + stem + extension;
    assert p == directory + "/" + name;
    FileNameAt(directory, name);
    ExtensionExact(stem, extension);
    assert Stem(p) == stem && Extension(p) == extension && Parent(p) == directory + "/";
    SuffixedPlain(p, suffix);
    NormalizeName(Parent(p), SuffixedName(p, suffix));
    SplitSlash(directory);
    hide *;
    Regroup(Join(Fold(Split(directory))), stem, DecimalText(suffix), extension);
    Associates(Join(Fold(Split(directory))) + "/" + stem + " (" + DecimalText(suffix), ")", extension);
  }

  lemma SplitSlash(directory: string)
    ensures Split(directory + "/") == Split(directory)
  {
    SplitConcat(directory, "/");
    assert Split("/") == Split("/"[1..]) == [];
  }

  // Normal paths

  /** A component that stands for itself. */
  predicate Plain(component: string) { component != "" && '/' !in component && component != "." && component != ".." }

  lemma {:induction false} SplitJoin(components: seq<string>)
    requires forall i | 0 <= i < |components| :: components[i] != "" && '/' !in components[i]
    ensures Split(Join(components)) == components
  {
    if components != [] {
      var n := |components| - 1;
      SplitJoin(components[..n]);
      SplitConcat(Join(components[..n]), "/" + components[n]);
      SplitName(components[n]);
      Associates(Join(components[..n]), "/", components[n]);
    }
  }

  lemma {:induction false} FoldPlain(components: seq<string>)
    requires forall i | 0 <= i < |components| :: Plain(components[i])
    ensures Fold(components) == components
  {
    if components != [] {
      FoldPlain(components[..|components| - 1]);
    }
  }

  lemma FoldDots(components: seq<string>)
    ensures Fold(components + ["."]) == Fold(components)
    ensures var before := Fold(components);
            Fold(components + [".."]) == if before == [] then [] else before[..|before| - 1]
  {
    assert (components + ["."])[..|components|] == components && (components + [".."])[..|components|] == components;
  }

  lemma NormalizeJoined(components: seq<string>)
    requires forall i | 0 <= i < |components| :: components[i] != "" && '/' !in components[i]
    ensures NormalizePath(Join(components)) == if Fold(components) == [] then "/" else Join(Fold(components))
  {
    hide Split, Fold, Join;
    SplitJoin(components);
  }

  /** A path of plain components is its own normal form; a dot goes, and two dots take the component before them along. */
  lemma NormalForms(components: seq<string>, last: string)
    requires Plain(last) && forall i | 0 <= i < |components| :: Plain(components[i])
    ensures NormalizePath(Join(components + [last])) == Join(components + [last])
    ensures NormalizePath(Join(components + [last] + ["."])) == Join(components + [last])
    ensures NormalizePath(Join(components + [last] + [".."])) == if components == [] then "/" else Join(components)
  {
    hide Fold, Join, NormalizePath;
    var all := components + [last];
    FoldPlain(components);
    FoldPlain(all);
    FoldDots(all);
    NormalizeJoined(all);
    NormalizeJoined(all + ["."]);
    NormalizeJoined(all + [".."]);
    assert all[..|components|] == components;
  }

  /** There is nothing above the root. */
  lemma RootIsTop()
    ensures NormalizePath("") == NormalizePath("/") == NormalizePath("/..") == "/"
  {
    assert "/"[1..] == "";
    SplitName("..");
    assert "/" + ".." == "/..";
    assert [".."][..0] == [];
  }
}

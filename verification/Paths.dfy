/** Guest paths (src/fs.rs:147-299): splitting, normalising and printing them. */
module Paths {
  import opened Prelude

  /** The pieces between slashes; there is always at least one. */
  function Split(s: string): (parts: seq<string>)
    ensures |parts| > 0
    ensures forall k :: 0 <= k < |parts| ==> '/' !in parts[k]
  {
    if s == "" then [""]
    else
      var rest := Split(s[1..]);
      if s[0] == '/' then [""] + rest else [[s[0]] + rest[0]] + rest[1..]
  }

  /** `apply_path_component` */
  function Apply(components: seq<string>, c: string): seq<string> {
    if c == "" || c == "." then components
    else if c == ".." then (if components == [] then [] else components[..|components| - 1])
    else components + [c]
  }

  function ApplyAll(components: seq<string>, parts: seq<string>): seq<string>
    decreases |parts|
  {
    if parts == [] then components else Apply(ApplyAll(components, parts[..|parts| - 1]), parts[|parts| - 1])
  }

  predicate Absolute(path: string) { path != "" && path[0] == '/' }

  /** `resolve_path`; `None` where it panics: a relative path with nothing absolute to be relative to. */
  function Resolve(path: string, relativeTo: Option<string>): Option<seq<string>> {
    if Absolute(path) then Some(ApplyAll([], Split(path)))
    else if relativeTo.None? || !Absolute(relativeTo.value) then None
    else Some(ApplyAll(ApplyAll([], Split(relativeTo.value)), Split(path)))
  }

  /** A component that names a file or directory. */
  predicate IsName(c: string) { c != "" && c != "." && c != ".." && '/' !in c }

  predicate Canonical(components: seq<string>) {
    forall k :: 0 <= k < |components| ==> IsName(components[k])
  }

  function Slashed(components: seq<string>): string {
    if components == [] then "" else Slashed(components[..|components| - 1]) + "/" + components[|components| - 1]
  }

  /** The absolute path that components stand for, as `change_working_directory` writes it. */
  function Print(components: seq<string>): string {
    if components == [] then "/" else Slashed(components)
  }

  /** `GuestPath::join` */
  function Join(base: string, path: string): string { base + "/" + path }

  // ---------------------------------------------------------------- properties

  lemma {:induction false} ApplyAllIsCanonical(components: seq<string>, parts: seq<string>)
    requires Canonical(components) && forall k :: 0 <= k < |parts| ==> '/' !in parts[k]
    ensures Canonical(ApplyAll(components, parts))
    decreases |parts|
  {
    if parts != [] { ApplyAllIsCanonical(components, parts[..|parts| - 1]); }
  }

  /**
   Resolving yields no empty, `.`, `..` or slash-containing component, and panics only for want of
   an absolute base.
   */
  lemma ResolvedIsCanonical(path: string, relativeTo: Option<string>)
    ensures match Resolve(path, relativeTo)
            case Some(cs) => Canonical(cs)
            case None => !Absolute(path) && (relativeTo.None? || !Absolute(relativeTo.value))
  {
    ApplyAllIsCanonical([], Split(path));
    if relativeTo.Some? {
      ApplyAllIsCanonical([], Split(relativeTo.value));
      ApplyAllIsCanonical(ApplyAll([], Split(relativeTo.value)), Split(path));
    }
  }

  lemma {:induction false} SplitJoined(a: string, b: string)
    ensures Split(a + "/" + b) == Split(a) + Split(b)
    decreases |a|
  {
    var s := a + "/" + b;
    if a == "" {
      assert s[1..] == b;
    } else {
      assert s[1..] == a[1..] + "/" + b;
      SplitJoined(a[1..], b);
    }
  }

  lemma {:induction false} ApplyAllAppends(components: seq<string>, p: seq<string>, q: seq<string>)
    ensures ApplyAll(components, p + q) == ApplyAll(ApplyAll(components, p), q)
    decreases |q|
  {
    if q == [] {
      assert p + q == p;
    } else {
      ApplyAllAppends(components, p, q[..|q| - 1]);
      assert (p + q)[..|p + q| - 1] == p + q[..|q| - 1];
    }
  }

  /** A relative path resolves as its base joined with it. */
  lemma RelativeResolvesAsJoined(path: string, base: string)
    requires !Absolute(path) && Absolute(base)
    ensures Resolve(path, Some(base)) == Resolve(Join(base, path), None)
  {
    SplitJoined(base, path);
    ApplyAllAppends([], Split(base), Split(path));
  }

  lemma {:induction false} SplitName(c: string)
    requires '/' !in c
    ensures Split(c) == [c]
    decreases |c|
  {
    if c != "" {
      SplitName(c[1..]);
      assert [c[0]] + c[1..] == c;
    }
  }

  lemma {:induction false} SplitSlashed(components: seq<string>)
    requires Canonical(components)
    ensures Split(Slashed(components)) == [""] + components
    decreases |components|
  {
    if components == [] {
      assert Split("") == [""];
    } else {
      var n := |components| - 1;
      SplitSlashed(components[..n]);
      SplitName(components[n]);
      SplitJoined(Slashed(components[..n]), components[n]);
      assert [""] + components[..n] + [components[n]] == [""] + components;
    }
  }

  lemma {:induction false} ApplyNames(components: seq<string>)
    requires Canonical(components)
    ensures ApplyAll([], [""] + components) == components
    decreases |components|
  {
    var parts := [""] + components;
    if components == [] {
      assert parts[..0] == [];
    } else {
      var n := |components| - 1;
      ApplyNames(components[..n]);
      assert parts[..|parts| - 1] == [""] + components[..n];
    }
  }

  lemma {:induction false} SlashedIsAbsolute(components: seq<string>)
    ensures components != [] ==> Absolute(Slashed(components))
    decreases |components|
  {
    if |components| > 1 { SlashedIsAbsolute(components[..|components| - 1]); }
  }

  /** Printing components and resolving the path again is the identity, so resolving twice is resolving once. */
  lemma PrintThenResolve(components: seq<string>, relativeTo: Option<string>)
    requires Canonical(components)
    ensures Absolute(Print(components)) && Resolve(Print(components), relativeTo) == Some(components)
  {
    SlashedIsAbsolute(components);
    if components == [] {
      assert Split("") == [""];
      assert "/"[1..] == "";
      assert Split("/") == ["", ""];
      assert ["", ""][..1] == [""] && [""][..0] == [];
    } else {
      SplitSlashed(components);
      ApplyNames(components);
    }
  }

  /** A name followed by `..` cancels, and `.` and repeated or trailing slashes do not count. */
  lemma ParentCancels(base: string, name: string)
    requires Absolute(base) && IsName(name)
    ensures Resolve(Join(Join(base, name), ".."), None) == Resolve(base, None)
    ensures Resolve(Join(base, "."), None) == Resolve(base, None) == Resolve(Join(base, ""), None)
  {
    SplitJoined(base, name);
    SplitJoined(Join(base, name), "..");
    SplitJoined(base, ".");
    SplitJoined(base, "");
    SplitName(name);
    SplitName("..");
    SplitName(".");
    SplitName("");
    var parts := Split(base);
    assert (parts + [name])[..|parts|] == parts && (parts + [name] + [".."])[..|parts| + 1] == parts + [name];
    var x := ApplyAll([], parts);
    assert ApplyAll([], parts + [name]) == x + [name] && (x + [name])[..|x|] == x;
    assert (parts + ["."])[..|parts|] == parts && (parts + [""])[..|parts|] == parts;
  }

  // ---------------------------------------------------------------- as a loop

  method ApplyPathComponent(components: seq<string>, c: string) returns (r: seq<string>)
    ensures r == Apply(components, c)
  {
    if c == "" || c == "." { return components; }
    if c == ".." { return if components == [] then [] else components[..|components| - 1]; }
    return components + [c];
  }

  /** `resolve_path` */
  method ResolvePath(path: string, relativeTo: Option<string>) returns (r: Option<seq<string>>)
    ensures r == Resolve(path, relativeTo)
  {
    var components: seq<string> := [];
    if !Absolute(path) {
      if relativeTo.None? || !Absolute(relativeTo.value) { return None; }
      var parts := Split(relativeTo.value);
      for k := 0 to |parts|
        invariant components == ApplyAll([], parts[..k])
      {
        components := ApplyPathComponent(components, parts[k]);
        assert parts[..k + 1][..k] == parts[..k];
      }
      assert parts[..|parts|] == parts;
    }
    ghost var base := components;
    var parts := Split(path);
    for k := 0 to |parts|
      invariant components == ApplyAll(base, parts[..k])
    {
      components := ApplyPathComponent(components, parts[k]);
      assert parts[..k + 1][..k] == parts[..k];
    }
    assert parts[..|parts|] == parts;
    return Some(components);
  }
}

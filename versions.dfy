/**
  How the two versions of the renderer relate: where their path trims agree
  and where they part, and that without a filter, and for a GOROOT without
  `\`, they drop the same frames.
*/
module Versions {
  import opened GoStrings
  import opened GoRuntime
  import opened Frames
  import Errors
  import LegacyErrors

  /**
    When "/src/" first occurs after the start of the path and something
    follows it, both versions cut the path after that occurrence.
  */
  lemma TrimsAgree(file: string)
    requires Index(file, Errors.Src) > 0 && Index(file, Errors.Src) + |Errors.Src| < |file|
    ensures Errors.TrimSrc(file) == LegacyErrors.TrimSrc(file)
    ensures Errors.TrimSrc(file) == file[Index(file, Errors.Src) + |Errors.Src|..]
  {
    var k := Index(file, Errors.Src);
    assert LegacyErrors.Matches(file) by {
      assert 1 <= k && OccursAt(file, LegacyErrors.Src, k);
    }
    var k' := IndexFrom(file, LegacyErrors.Src, 1);
    assert k' != -1 && k' <= k;
  }

  /**
    A path that starts with "/src/" is kept whole by errors.go, while the
    pattern of error.go skips to a later "/src/".
  */
  lemma TrimsDifferAtLeadingSrc()
    ensures Errors.TrimSrc("/src/a/src/b") == "/src/a/src/b"
    ensures LegacyErrors.TrimSrc("/src/a/src/b") == "b"
  {
    var file := "/src/a/src/b";
    assert OccursAt(file, Errors.Src, 0);
    MismatchAt(file, Errors.Src, 1, 0);
    MismatchAt(file, Errors.Src, 2, 0);
    MismatchAt(file, Errors.Src, 3, 0);
    MismatchAt(file, Errors.Src, 4, 1);
    MismatchAt(file, Errors.Src, 5, 0);
    assert OccursAt(file, Errors.Src, 6);
  }

  /** A path ending in "/src/" is emptied by errors.go and kept by error.go, whose `(.+)` needs a character. */
  lemma TrimsDifferAtTrailingSrc()
    ensures Errors.TrimSrc("a/src/") == ""
    ensures LegacyErrors.TrimSrc("a/src/") == "a/src/"
  {
    var file := "a/src/";
    MismatchAt(file, Errors.Src, 0, 0);
    assert OccursAt(file, Errors.Src, 1);
  }

  /**
    With the filter switched off and a GOROOT without `\`, both versions drop
    exactly the same raw indices (the resolved frames under GOROOT), so they
    write the same number of records for the same frames. errors.go compares
    against GOROOT with `\` turned into `/` (errors.go:13); error.go compares
    against it as is (error.go:14).
  */
  lemma SameDropsWithoutFilter(resolve: Resolver, runtimeGoRoot: string, stack: seq<PC>, messages: seq<string>)
    requires '\\' !in runtimeGoRoot
    ensures var settings := Errors.SetFilterFunc(Errors.InitialSettings(runtimeGoRoot), None);
            var fs := Errors.RecordsOf(Errors.Env(resolve, settings), stack, messages);
            var gs := LegacyErrors.RecordsOf(resolve, runtimeGoRoot, stack, messages);
            Kept(fs, |fs|) == Kept(gs, |gs|)
  {
    var settings := Errors.SetFilterFunc(Errors.InitialSettings(runtimeGoRoot), None);
    assert settings == Errors.Settings(runtimeGoRoot, None);
    var fs := Errors.RecordsOf(Errors.Env(resolve, settings), stack, messages);
    var gs := LegacyErrors.RecordsOf(resolve, runtimeGoRoot, stack, messages);
    KeptSameDrops(fs, gs, |stack|);
  }

  /**
    With a `\` in GOROOT the versions part: for GOROOT "\" and a frame in
    file "/", errors.go drops the frame ("/" starts with the converted root
    "/") while error.go keeps it ("/" does not start with "\").
  */
  lemma DropsDifferOnBackslashRoot()
    ensures var resolve: Resolver := pc => Some(Location("/", 0, "f"));
            var settings := Errors.SetFilterFunc(Errors.InitialSettings("\\"), None);
            && Errors.RecordsOf(Errors.Env(resolve, settings), [0], [])[0].None?
            && LegacyErrors.RecordsOf(resolve, "\\", [0], [])[0].Some?
  {
    var resolve: Resolver := pc => Some(Location("/", 0, "f"));
    assert ReplaceChar("\\", '\\', '/') == "/";
    assert !("\\" <= "/");
  }
}

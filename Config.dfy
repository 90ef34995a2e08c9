/**
 * Default day counts and the fixed list of protected branch names.  An
 * entry ending in a slash and a star protects every name under that prefix; any other
 * entry protects exactly that name, case-sensitively.
 */
module Config {
  import opened Text

  const DefaultStaleDays: nat := 30
  const DefaultAgeDays: nat := 60

  const ProtectedPatterns: seq<string> :=
    ["main", "master", "develop", "development", "staging", "production", "release/*"]

  predicate EndsWith(s: string, suffix: string) {
    |suffix| <= |s| && s[|s| - |suffix|..] == suffix
  }

  /** One entry of the list against a name. */
  predicate MatchesEntry(name: string, entry: string) {
    if EndsWith(entry, "/*") then StartsWith(name, entry[..|entry| - 2] + "/")
    else name == entry
  }

  /** `matchesProtectedPattern`: some entry of the list matches the name. */
  predicate MatchesProtectedPattern(name: string) {
    exists k :: 0 <= k < |ProtectedPatterns| && MatchesEntry(name, ProtectedPatterns[k])
  }

  /** The list amounts to six exact names and every name under `release/`. */
  lemma ProtectedNames(name: string)
    ensures MatchesProtectedPattern(name) <==>
              || name == "main" || name == "master" || name == "develop"
              || name == "development" || name == "staging" || name == "production"
              || StartsWith(name, "release/")
  {
    assert forall k :: 0 <= k < 6 ==> !EndsWith(ProtectedPatterns[k], "/*");
    assert EndsWith(ProtectedPatterns[6], "/*");
    assert ProtectedPatterns[6][..|ProtectedPatterns[6]| - 2] + "/" == "release/";
    if name == "main" {
      assert MatchesEntry(name, ProtectedPatterns[0]);
    } else if name == "master" {
      assert MatchesEntry(name, ProtectedPatterns[1]);
    } else if name == "develop" {
      assert MatchesEntry(name, ProtectedPatterns[2]);
    } else if name == "development" {
      assert MatchesEntry(name, ProtectedPatterns[3]);
    } else if name == "staging" {
      assert MatchesEntry(name, ProtectedPatterns[4]);
    } else if name == "production" {
      assert MatchesEntry(name, ProtectedPatterns[5]);
    } else if StartsWith(name, "release/") {
      assert MatchesEntry(name, ProtectedPatterns[6]);
    }
  }

  lemma ProtectedExamples()
    ensures MatchesProtectedPattern("main")
    ensures MatchesProtectedPattern("release/")
    ensures MatchesProtectedPattern("release/1.2")
  {
    ProtectedNames("main");
    ProtectedNames("release/");
    ProtectedNames("release/1.2");
    assert "release/1.2"[..8] == "release/";
  }

  /** `release` without its slash, a capitalised `Main` and a name merely ending in `main` are not protected. */
  lemma UnprotectedExamples()
    ensures !MatchesProtectedPattern("release")
    ensures !MatchesProtectedPattern("Main")
    ensures !MatchesProtectedPattern("feature/main")
  {
    ProtectedNames("release");
    ProtectedNames("Main");
    ProtectedNames("feature/main");
    assert "feature/main"[0] != "release/"[0];
    assert "Main"[0] != "main"[0];
  }
}

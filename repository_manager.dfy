/**
 * The repository registry of core/repository_manager.py: name validation,
 * fuzzy suggestions and the sorted, duplicate-free insert into `repos.json`.
 */
module Repositories {
  import opened Common
  import opened Strings
  import opened Sorting

  /** The registry document `repos.json` as `load_repositories` finds it. */
  datatype RegistryFile =
    | Missing                                       // FileNotFoundError
    | Corrupt                                       // JSONDecodeError
    | Document(repositories: Option<seq<string>>)   // parsed; None when it has no "repositories" key

  /** The names written on first run, in file order (not sorted). */
  const SeedRepositories: seq<string> :=
    ["jules-dev-kit", "my-app", "backend-api", "frontend-web", "mobile-app"]

  const CharsetMessage: string :=
    "Repository name can only contain letters, numbers, hyphens, and underscores"
  const TooShortMessage: string := "Repository name must be at least 2 characters long"
  const TooLongMessage: string := "Repository name must be 50 characters or less"

  /** One character of the class `[a-zA-Z0-9_-]`. */
  predicate IsNameChar(c: char)
  {
    'a' <= c <= 'z' || 'A' <= c <= 'Z' || '0' <= c <= '9' || c == '_' || c == '-'
  }

  predicate AllNameChars(s: string)
  {
    forall i :: 0 <= i < |s| ==> IsNameChar(s[i])
  }

  /**
   * `re.match(r'^[a-zA-Z0-9_-]+$', s)`: one or more name characters, where
   * Python's `$` also matches just before a newline that ends the string.
   */
  predicate MatchesNamePattern(s: string)
  {
    (|s| >= 1 && AllNameChars(s)) ||
    (|s| >= 2 && s[|s| - 1] == '\n' && AllNameChars(s[..|s| - 1]))
  }

  /**
   * What the pattern accepts, character by character: every character but
   * the last is a name character, and the last is one too or is a newline
   * that follows at least one name character.
   */
  lemma MatchesNamePatternShape(s: string)
    ensures MatchesNamePattern(s) <==>
            |s| >= 1 && (forall i :: 0 <= i < |s| - 1 ==> IsNameChar(s[i])) &&
            (IsNameChar(s[|s| - 1]) || (|s| >= 2 && s[|s| - 1] == '\n'))
  {
    if |s| >= 2 && s[|s| - 1] == '\n' {
      assert forall i :: 0 <= i < |s| - 1 ==> s[..|s| - 1][i] == s[i];
    }
  }

  /**
   * `validate_repo_name` as written: the character check first, then the
   * lower length bound, then the upper one; `(True, "")` when all pass.
   */
  function ValidateRepoName(name: string): (r: (bool, string))
    ensures r.0 <==> MatchesNamePattern(name) && 2 <= |name| <= 50
    ensures r.0 <==> r.1 == ""
    ensures !MatchesNamePattern(name) ==> r.1 == CharsetMessage
    ensures MatchesNamePattern(name) && |name| < 2 ==> r.1 == TooShortMessage
    ensures MatchesNamePattern(name) && |name| > 50 ==> r.1 == TooLongMessage
  {
    if !MatchesNamePattern(name) then (false, CharsetMessage)
    else if |name| < 2 then (false, TooShortMessage)
    else if |name| > 50 then (false, TooLongMessage)
    else (true, "")
  }

  /**
   * The check the comment at core/repository_manager.py:40 describes: every
   * character is a name character and the length is within 2..50
   * (`re.fullmatch`, or `\Z` in place of `$`).
   */
  function ValidateRepoNameFullMatch(name: string): (r: (bool, string))
    ensures r.0 <==> AllNameChars(name) && 2 <= |name| <= 50
    ensures r.0 <==> r.1 == ""
    ensures name == "" || !AllNameChars(name) ==> r.1 == CharsetMessage
    ensures AllNameChars(name) && |name| == 1 ==> r.1 == TooShortMessage
    ensures AllNameChars(name) && |name| > 50 ==> r.1 == TooLongMessage
  {
    if name == "" || !AllNameChars(name) then (false, CharsetMessage)
    else if |name| < 2 then (false, TooShortMessage)
    else if |name| > 50 then (false, TooLongMessage)
    else (true, "")
  }

  /** On names without a newline the two checks give the same answer and message. */
  lemma {:induction false} ValidateAgreesWithoutNewline(name: string)
    requires forall i :: 0 <= i < |name| ==> name[i] != '\n'
    ensures ValidateRepoName(name) == ValidateRepoNameFullMatch(name)
  {
    assert MatchesNamePattern(name) <==> name != "" && AllNameChars(name) by {
      if |name| >= 2 && AllNameChars(name[..|name| - 1]) {
        assert name[|name| - 1] != '\n';
      }
    }
  }

  /** The check as written accepts "a\n": one name character and a newline. */
  lemma ValidateAcceptsTrailingNewline()
    ensures ValidateRepoName("a\n") == (true, "")
    ensures ValidateRepoNameFullMatch("a\n") == (false, CharsetMessage)
  {
    assert "a\n"[..1] == "a";
    assert !IsNameChar("a\n"[1]);
  }

  // ---------------------------------------------------------------------
  // Fuzzy suggestions

  /** The partial-match test of `suggest_repositories`, on the lower-cased input. */
  predicate Similar(repo: string, userLower: string)
  {
    Contains(Lower(repo), userLower) || Contains(userLower, Lower(repo))
  }

  /** The registered names similar to the input, in registry order. */
  function Suggestions(repos: seq<string>, userLower: string): (r: seq<string>)
    ensures IsSubsequence(r, repos)
    ensures forall x :: x in r <==> x in repos && Similar(x, userLower)
  {
    if repos == [] then []
    else
      var init := repos[..|repos| - 1];
      var last := repos[|repos| - 1];
      var earlier := Suggestions(init, userLower);
      assert repos == init + [last];
      if Similar(last, userLower) then
        var r := earlier + [last];
        assert r[..|r| - 1] == earlier;
        r
      else earlier
  }

  /** Scanning one more name appends it to the suggestions when it is similar. */
  lemma SuggestionsStep(repos: seq<string>, i: nat, userLower: string)
    requires i < |repos|
    ensures Suggestions(repos[..i + 1], userLower) ==
            Suggestions(repos[..i], userLower) + (if Similar(repos[i], userLower) then [repos[i]] else [])
  {
    assert repos[..i + 1][..i] == repos[..i];
  }

  /**
   * Each similar name is suggested as many times as it is registered, and
   * no other name at all.
   */
  lemma {:induction false} SuggestionsCounts(repos: seq<string>, userLower: string)
    ensures forall x :: multiset(Suggestions(repos, userLower))[x] ==
                        if Similar(x, userLower) then multiset(repos)[x] else 0
    decreases |repos|
  {
    if repos != [] {
      var init := repos[..|repos| - 1];
      var last := repos[|repos| - 1];
      SuggestionsCounts(init, userLower);
      assert repos == init + [last];
      assert multiset(repos) == multiset(init) + multiset{last};
    }
  }

  lemma {:induction false} SuggestionsOfEmpty(repos: seq<string>)
    ensures Suggestions(repos, "") == repos
    decreases |repos|
  {
    if repos != [] {
      var init := repos[..|repos| - 1];
      var last := repos[|repos| - 1];
      SuggestionsOfEmpty(init);
      ContainsTrivial(Lower(last));
      assert Similar(last, "");
      assert repos == init + [last];
    }
  }

  /** An empty input is contained in every name, so every registered name is suggested. */
  lemma EmptyInputSuggestsAll(repos: seq<string>)
    ensures Suggestions(repos, Lower("")) == repos
  {
    assert Lower("") == "";
    SuggestionsOfEmpty(repos);
  }

  /** A name equal to the input ignoring case. */
  predicate HasExactMatch(repos: seq<string>, userLower: string)
  {
    exists i :: 0 <= i < |repos| && Lower(repos[i]) == userLower
  }

  lemma LowerOfExampleNames()
    ensures Lower("MyRepo") == "myrepo"
    ensures Lower("my-repo") == "my-repo"
  {
  }

  /** Neither of "myrepo" and "my-repo" contains the other. */
  lemma DashedNameNotContained()
    ensures !Contains("my-repo", "myrepo")
    ensures !Contains("myrepo", "my-repo")
  {
    var u, n := "myrepo", "my-repo";
    ContainsIffSlice(n, u);
    forall i | 0 <= i <= |n| - |u| ensures !IsPrefix(u, n[i..]) {
      assert n[i..][2 - i] != u[2 - i];
    }
    ContainsIffSlice(u, n);
  }

  /** "MyRepo" and "my-repo" are neither equal nor substrings of each other ignoring case. */
  lemma MyRepoIsNotSimilarToDashedName()
    ensures !HasExactMatch(["my-repo"], Lower("MyRepo"))
    ensures Suggestions(["my-repo"], Lower("MyRepo")) == []
  {
    LowerOfExampleNames();
    DashedNameNotContained();
    assert !Similar("my-repo", "myrepo");
    assert ["my-repo"][..0] == [];
  }

  /** "my-repo" typed exactly is an exact match. */
  lemma SameNameIsExactMatch()
    ensures HasExactMatch(["my-repo"], Lower("my-repo"))
  {
    assert Lower(["my-repo"][0]) == Lower("my-repo");
  }

  // ---------------------------------------------------------------------
  // The registry object

  class RepositoryManager {
    /** The contents of `repos.json`. */
    var file: RegistryFile

    /**
     * `__init__` / `_init_repos_registry`: writes the seed list only when
     * the registry file does not exist; an existing file, even a corrupt
     * one, is left alone.
     */
    constructor (existing: RegistryFile)
      ensures existing.Missing? ==> file == Document(Some(SeedRepositories))
      ensures !existing.Missing? ==> file == existing
      ensures LoadRepositories() == if existing.Missing? then SeedRepositories
                                    else if existing.Document? && existing.repositories.Some?
                                    then existing.repositories.value else []
    {
      if existing.Missing? {
        file := Document(Some(SeedRepositories));
      } else {
        file := existing;
      }
    }

    /**
     * `load_repositories`: the stored list, or [] when the file is missing,
     * corrupt, or has no "repositories" key.
     */
    function LoadRepositories(): (r: seq<string>)
      reads this
      ensures file.Document? && file.repositories.Some? ==> r == file.repositories.value
      ensures file.Missing? || file.Corrupt? || file == Document(None) ==> r == []
    {
      match file
      case Document(Some(repos)) => repos
      case _ => []
    }

    /**
     * `suggest_repositories`: `(True, [])` as soon as a name equals the input
     * ignoring case, whatever partial matches came before; otherwise
     * `(False, s)` with `s` the similar names in registry order.
     */
    method SuggestRepositories(userInput: string) returns (exact: bool, suggestions: seq<string>)
      ensures exact <==> HasExactMatch(LoadRepositories(), Lower(userInput))
      ensures exact ==> suggestions == []
      ensures !exact ==> suggestions == Suggestions(LoadRepositories(), Lower(userInput))
      ensures IsSubsequence(suggestions, LoadRepositories())
      ensures forall x :: x in suggestions ==> Similar(x, Lower(userInput))
    {
      var repos := LoadRepositories();
      var userLower := Lower(userInput);
      suggestions := [];
      var i := 0;
      while i < |repos|
        invariant 0 <= i <= |repos|
        invariant forall k :: 0 <= k < i ==> Lower(repos[k]) != userLower
        invariant suggestions == Suggestions(repos[..i], userLower)
      {
        var repo := repos[i];
        if Lower(repo) == userLower {
          assert HasExactMatch(repos, userLower) by {
            assert 0 <= i < |repos| && Lower(repos[i]) == userLower;
          }
          return true, [];
        }
        SuggestionsStep(repos, i, userLower);
        if Similar(repo, userLower) {
          suggestions := suggestions + [repo];
        }
        i := i + 1;
      }
      assert repos[..i] == repos;
      assert !HasExactMatch(repos, userLower);
      exact := false;
    }

    /**
     * `add_repository`: a name already present (case-sensitive) gives False
     * and no write; otherwise the name is appended, the list sorted and the
     * whole registry rewritten. Either way the name is registered afterwards,
     * so a second add of the same name returns False.
     */
    method AddRepository(repoName: string) returns (added: bool)
      modifies this
      ensures added <==> repoName !in old(LoadRepositories())
      ensures !added ==> file == old(file)
      ensures added ==> file == Document(Some(SortBy(old(LoadRepositories()) + [repoName], Identity)))
      ensures added ==> Sorted(LoadRepositories())
      ensures added ==> multiset(LoadRepositories()) == multiset(old(LoadRepositories())) + multiset{repoName}
      ensures added ==> |LoadRepositories()| == |old(LoadRepositories())| + 1
      ensures repoName in LoadRepositories()
    {
      var repos := LoadRepositories();
      if repoName !in repos {
        repos := SortBy(repos + [repoName], Identity);
        assert repoName in multiset(repos);
        assert |repos| == |multiset(repos)|;
        file := Document(Some(repos));
        return true;
      }
      return false;
    }
  }

  /** Adding the same name twice: the second call returns False and changes nothing. */
  method AddTwice(registry: RepositoryManager, repoName: string) returns (first: bool, second: bool)
    modifies registry
    ensures first <==> repoName !in old(registry.LoadRepositories())
    ensures !second
    ensures first ==> registry.file == Document(Some(SortBy(old(registry.LoadRepositories()) + [repoName], Identity)))
    ensures !first ==> registry.file == old(registry.file)
  {
    first := registry.AddRepository(repoName);
    ghost var between := registry.file;
    second := registry.AddRepository(repoName);
    assert registry.file == between;
  }
}

/** Selecting repositories by name (ecr_scan_reporter/repos_scanner.py).
    A user's regular expression is a parameter `userMatch(pattern, name)`
    standing for `re.compile(pattern).match(name)`. */
module ReposScanner {
  import opened Wrappers

  /** An element of the repositories list: a dict (with or without a
      "repositoryName" key), a string, or anything else. */
  datatype RepoElement = RepoDict(repositoryName: Option<string>) | RepoName(name: string) | OtherElement

  /** The `repos_names_filter` argument: absent, a string, or a value of
      another type. */
  datatype NamesFilter = NoFilter | FilterString(pattern: string) | OtherFilter

  /** The KeyError for a dict without a name, the TypeError for an element
      that is neither a dict nor a string. */
  datatype FilterError = MissingRepositoryName | NotDictOrStr

  /** `re.match(r"^.*$", name)`: '.' takes every character but a newline and
      '$' holds at the end or before a final newline, so a name matches
      when no newline occurs in it except possibly as its last character. */
  predicate DefaultMatch(name: string) {
    forall i :: 0 <= i < |name| && name[i] == '\n' ==> i == |name| - 1
  }

  /** The filter in force: the user's pattern when it is a non-empty
      string, the default `^.*$` otherwise. */
  predicate Keep(namesFilter: NamesFilter, userMatch: (string, string) -> bool, name: string) {
    if namesFilter.FilterString? && namesFilter.pattern != "" then userMatch(namesFilter.pattern, name)
    else DefaultMatch(name)
  }

  /** The name an element contributes, or the exception it raises. */
  function ElementName(e: RepoElement): Result<string, FilterError> {
    match e
    case RepoDict(name) => if name.Some? then Success(name.value) else Failure(MissingRepositoryName)
    case RepoName(name) => Success(name)
    case OtherElement => Failure(NotDictOrStr)
  }

  /** The result of the loop over `repos`: the first exception raised, or
      the names the filter keeps, in order. */
  function Filtered(repos: seq<RepoElement>, namesFilter: NamesFilter, userMatch: (string, string) -> bool)
      : Result<seq<string>, FilterError>
    decreases |repos|
  {
    if |repos| == 0 then Success([])
    else
      var n := |repos| - 1;
      match Filtered(repos[..n], namesFilter, userMatch)
      case Failure(e) => Failure(e)
      case Success(names) =>
        match ElementName(repos[n])
        case Failure(e) => Failure(e)
        case Success(name) => Success(if Keep(namesFilter, userMatch, name) then names + [name] else names)
  }

  /** `filter_repos_from_regexp`. */
  method FilterReposFromRegexp(repos: seq<RepoElement>, namesFilter: NamesFilter, userMatch: (string, string) -> bool)
      returns (filtered: Result<seq<string>, FilterError>)
    ensures filtered == Filtered(repos, namesFilter, userMatch)
  {
    var filteredRepos: seq<string> := [];
    var i := 0;
    while i < |repos|
      invariant 0 <= i <= |repos|
      invariant Filtered(repos[..i], namesFilter, userMatch) == Success(filteredRepos)
      decreases |repos| - i
    {
      assert repos[..i + 1][..i] == repos[..i];
      var repoName: string;
      match repos[i] {
        case RepoDict(name) =>
          if name.None? {
            FilteredStopsAtError(repos, namesFilter, userMatch, i + 1);
            return Failure(MissingRepositoryName);
          }
          repoName := name.value;
        case RepoName(name) =>
          repoName := name;
        case OtherElement =>
          FilteredStopsAtError(repos, namesFilter, userMatch, i + 1);
          return Failure(NotDictOrStr);
      }
      if Keep(namesFilter, userMatch, repoName) {
        filteredRepos := filteredRepos + [repoName];
      }
      i := i + 1;
    }
    assert repos[..i] == repos;
    filtered := Success(filteredRepos);
  }

  /** An exception ends the loop: later elements do not matter. */
  lemma {:induction false} FilteredStopsAtError(repos: seq<RepoElement>, namesFilter: NamesFilter,
                                                userMatch: (string, string) -> bool, i: nat)
    requires i <= |repos| && Filtered(repos[..i], namesFilter, userMatch).Failure?
    ensures Filtered(repos, namesFilter, userMatch) == Filtered(repos[..i], namesFilter, userMatch)
    decreases |repos|
  {
    if i < |repos| {
      var n := |repos| - 1;
      assert repos[..n][..i] == repos[..i];
      FilteredStopsAtError(repos[..n], namesFilter, userMatch, i);
    } else {
      assert repos[..i] == repos;
    }
  }

  /** The loop fails exactly when some element has no name, and then with
      the exception of the first such element. */
  lemma {:induction false} FilteredErrors(repos: seq<RepoElement>, namesFilter: NamesFilter,
                                          userMatch: (string, string) -> bool)
    ensures Filtered(repos, namesFilter, userMatch).Failure? <==>
              exists i :: 0 <= i < |repos| && ElementName(repos[i]).Failure?
    ensures forall i :: 0 <= i < |repos| && ElementName(repos[i]).Failure? &&
                        (forall j :: 0 <= j < i ==> ElementName(repos[j]).Success?) ==>
              Filtered(repos, namesFilter, userMatch) == Failure(ElementName(repos[i]).error)
    decreases |repos|
  {
    if |repos| > 0 {
      var n := |repos| - 1;
      FilteredErrors(repos[..n], namesFilter, userMatch);
      assert forall i :: 0 <= i < n ==> repos[..n][i] == repos[i];
    }
  }

  /** The names of all the elements, when each has one. */
  function Names(repos: seq<RepoElement>): (names: seq<string>)
    requires forall i :: 0 <= i < |repos| ==> ElementName(repos[i]).Success?
    ensures |names| == |repos|
    ensures forall i :: 0 <= i < |repos| ==> names[i] == ElementName(repos[i]).value
  {
    seq(|repos|, i requires 0 <= i < |repos| && ElementName(repos[i]).Success? => ElementName(repos[i]).value)
  }

  /** The names satisfying the filter, in their order: the selection the
      loop is meant to make. */
  function Selected(names: seq<string>, namesFilter: NamesFilter, userMatch: (string, string) -> bool)
      : (kept: seq<string>)
    decreases |names|
  {
    if |names| == 0 then []
    else if Keep(namesFilter, userMatch, names[0]) then [names[0]] + Selected(names[1..], namesFilter, userMatch)
    else Selected(names[1..], namesFilter, userMatch)
  }

  /** A name is selected exactly when it is among the names and satisfies
      the filter; selection never adds names. */
  lemma {:induction false} SelectedMembers(names: seq<string>, namesFilter: NamesFilter,
                                           userMatch: (string, string) -> bool)
    ensures forall x :: x in Selected(names, namesFilter, userMatch) <==>
                        x in names && Keep(namesFilter, userMatch, x)
    ensures |Selected(names, namesFilter, userMatch)| <= |names|
    decreases |names|
  {
    if |names| > 0 {
      SelectedMembers(names[1..], namesFilter, userMatch);
      assert names == [names[0]] + names[1..];
    }
  }

  lemma {:induction false} SelectedSnoc(names: seq<string>, name: string, namesFilter: NamesFilter,
                                        userMatch: (string, string) -> bool)
    ensures Selected(names + [name], namesFilter, userMatch) ==
            Selected(names, namesFilter, userMatch) +
            (if Keep(namesFilter, userMatch, name) then [name] else [])
    decreases |names|
  {
    if |names| == 0 {
      assert ([] + [name])[1..] == [];
    } else {
      assert (names + [name])[1..] == names[1..] + [name];
      SelectedSnoc(names[1..], name, namesFilter, userMatch);
    }
  }

  /** When every element has a name, the loop returns exactly the selection
      of those names. */
  lemma {:induction false} FilteredIsSelection(repos: seq<RepoElement>, namesFilter: NamesFilter,
                                               userMatch: (string, string) -> bool)
    requires forall i :: 0 <= i < |repos| ==> ElementName(repos[i]).Success?
    ensures Filtered(repos, namesFilter, userMatch) == Success(Selected(Names(repos), namesFilter, userMatch))
    decreases |repos|
  {
    if |repos| > 0 {
      var n := |repos| - 1;
      assert forall i :: 0 <= i < n ==> repos[..n][i] == repos[i];
      FilteredIsSelection(repos[..n], namesFilter, userMatch);
      var name := ElementName(repos[n]).value;
      assert Names(repos) == Names(repos[..n]) + [name];
      SelectedSnoc(Names(repos[..n]), name, namesFilter, userMatch);
      assert ElementName(repos[n]) == Success(name);
      assert Selected(Names(repos[..n]), namesFilter, userMatch) + [] == Selected(Names(repos[..n]), namesFilter, userMatch);
      assert Filtered(repos, namesFilter, userMatch) ==
             Success(Selected(Names(repos[..n]), namesFilter, userMatch) +
                     (if Keep(namesFilter, userMatch, name) then [name] else []));
    }
  }

  /** Without a usable user pattern every name free of newlines is kept:
      the result is all the names, in order. */
  lemma {:induction false} DefaultKeepsAll(repos: seq<RepoElement>, namesFilter: NamesFilter,
                                           userMatch: (string, string) -> bool)
    requires !(namesFilter.FilterString? && namesFilter.pattern != "")
    requires forall i :: 0 <= i < |repos| ==> ElementName(repos[i]).Success?
    requires forall i :: 0 <= i < |repos| ==> '\n' !in ElementName(repos[i]).value
    ensures Filtered(repos, namesFilter, userMatch) == Success(Names(repos))
    decreases |repos|
  {
    if |repos| > 0 {
      var n := |repos| - 1;
      assert forall i :: 0 <= i < n ==> repos[..n][i] == repos[i];
      DefaultKeepsAll(repos[..n], namesFilter, userMatch);
      assert Names(repos) == Names(repos[..n]) + [ElementName(repos[n]).value];
    }
  }
}

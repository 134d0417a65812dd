/**
 * The issue identifier allocator and the issue store of core/file_manager.py:
 * the counter document `issue_counter.txt` and one document per issue under
 * `issues/`.
 */
module Issues {
  import opened Common
  import opened Strings
  import opened Sorting

  /** An issue record as `create_issue` builds it. */
  datatype Issue = Issue(id: string, title: string, description: string, repository: string, createdAt: string)

  /** An issue document as `json.load` finds it. */
  datatype IssueDocument = Malformed | Stored(issue: Issue)

  const IdPrefix: string := "ISSUE-"

  function Zeros(n: nat): (z: string)
    ensures |z| == n && forall i :: 0 <= i < n ==> z[i] == '0'
  {
    seq(n, _ => '0')
  }

  /** Zero-pad on the left to at least `width` characters; a longer string is kept whole. */
  function PadLeft(s: string, width: nat): string
  {
    Zeros(if |s| < width then width - |s| else 0) + s
  }

  /**
   * The text after "ISSUE-": the decimal of the counter, zero-padded to a
   * field of width 3; for a negative counter the sign takes one place of the
   * field, as in `-04`.
   */
  function IdSuffix(counter: int): string
  {
    if counter >= 0 then PadLeft(NatToDecimal(counter), 3)
    else "-" + PadLeft(NatToDecimal(-counter), 2)
  }

  /** `f"ISSUE-{counter:03d}"`. */
  function FormatId(counter: int): (id: string)
    ensures IsPrefix(IdPrefix, id)
  {
    IdPrefix + IdSuffix(counter)
  }

  /** Padding adds only zeros, so the padded digits keep their value. */
  lemma PadLeftValue(s: string, width: nat)
    requires |s| >= 1 && AllDigits(s)
    ensures |PadLeft(s, width)| >= 1 && AllDigits(PadLeft(s, width))
    ensures DecimalValue(PadLeft(s, width)) == DecimalValue(s)
  {
    DecimalValueLeadingZeros(Zeros(if |s| < width then width - |s| else 0), s);
  }

  /**
   * The `{counter:03d}` field is at least three characters: digits only for
   * a counter of 0 or more, a minus sign and digits for a negative one.
   */
  lemma IdSuffixShape(counter: int)
    ensures |IdSuffix(counter)| >= 3
    ensures counter >= 0 ==> AllDigits(IdSuffix(counter))
    ensures counter < 0 ==> IdSuffix(counter)[0] == '-' && AllDigits(IdSuffix(counter)[1..])
  {
    if counter >= 0 {
      PadLeftValue(NatToDecimal(counter), 3);
    } else {
      PadLeftValue(NatToDecimal(-counter), 2);
      var digits := PadLeft(NatToDecimal(-counter), 2);
      assert ("-" + digits)[1..] == digits;
    }
  }

  lemma IdSuffixParsesBack(counter: int)
    ensures ParseInt(IdSuffix(counter)) == Some(counter)
  {
    var n: nat := if counter >= 0 then counter else -counter;
    var width: nat := if counter >= 0 then 3 else 2;
    var digits := PadLeft(NatToDecimal(n), width);
    PadLeftValue(NatToDecimal(n), width);
    assert (if counter < 0 then -(n as int) else n as int) == counter;
    SignedDigitsParse(IdSuffix(counter), digits, counter < 0, n);
  }

  /** A string made of an optional minus sign and the digits of `v` reads back as `v` with that sign. */
  lemma SignedDigitsParse(t: string, digits: string, negative: bool, v: nat)
    requires |digits| >= 1 && AllDigits(digits) && DecimalValue(digits) == v
    requires t == if negative then "-" + digits else digits
    ensures ParseInt(t) == Some(if negative then -(v as int) else v as int)
  {
    ParseSignedDigits(digits, negative);
  }

  /** The digits after "ISSUE-" read back, with `int(...)`, as the counter: nothing is cut off. */
  lemma FormatIdParsesBack(counter: int)
    ensures ParseInt(FormatId(counter)[|IdPrefix|..]) == Some(counter)
  {
    assert FormatId(counter)[|IdPrefix|..] == IdSuffix(counter);
    IdSuffixParsesBack(counter);
  }

  /** Different counters give different identifiers. */
  lemma FormatIdInjective(a: int, b: int)
    requires FormatId(a) == FormatId(b)
    ensures a == b
  {
    FormatIdParsesBack(a);
    FormatIdParsesBack(b);
  }

  lemma SmallPow10(k: nat)
    ensures k <= 3 ==> Pow10(k) <= 1000
  {
    if 0 < k <= 3 {
      SmallPow10(k - 1);
    }
  }

  /** The field is at least three digits wide and widens for counters from 1000 on. */
  lemma FormatIdWidth(counter: nat)
    ensures var d := NatToDecimal(counter);
            |FormatId(counter)| == |IdPrefix| + (if |d| < 3 then 3 else |d|)
    ensures counter >= 1000 ==> |FormatId(counter)| >= |IdPrefix| + 4
  {
    var d := NatToDecimal(counter);
    DecimalValueBound(d);
    SmallPow10(|d|);
  }

  /** The three digit characters of a counter below 1000. */
  lemma ThreeDigits(c: nat, d1: nat, d2: nat, d3: nat)
    requires d1 < 10 && d2 < 10 && d3 < 10 && c == 100 * d1 + 10 * d2 + d3
    ensures FormatId(c) == IdPrefix + [DigitChar(d1), DigitChar(d2), DigitChar(d3)]
  {
    var digits := [DigitChar(d1), DigitChar(d2), DigitChar(d3)];
    if d1 == 0 && d2 == 0 {
      assert NatToDecimal(c) == [DigitChar(d3)];
      assert Zeros(2) == [DigitChar(0), DigitChar(0)];
      assert PadLeft(NatToDecimal(c), 3) == digits;
    } else if d1 == 0 {
      assert c / 10 == d2 && c % 10 == d3;
      assert NatToDecimal(c / 10) == [DigitChar(d2)];
      assert NatToDecimal(c) == [DigitChar(d2), DigitChar(d3)];
      assert Zeros(1) == [DigitChar(0)];
      assert PadLeft(NatToDecimal(c), 3) == digits;
    } else {
      assert c / 10 == 10 * d1 + d2 && c % 10 == d3;
      assert (c / 10) / 10 == d1 && (c / 10) % 10 == d2;
      assert NatToDecimal(d1) == [DigitChar(d1)];
      assert NatToDecimal(c / 10) == [DigitChar(d1), DigitChar(d2)];
      assert NatToDecimal(c) == digits;
      assert Zeros(0) == [];
      assert PadLeft(NatToDecimal(c), 3) == digits;
    }
  }

  lemma BelowThreeChars(x: string, y: string)
    requires |x| == 3 && |y| == 3
    ensures Below(x, y) <==>
            x[0] < y[0] || (x[0] == y[0] && (x[1] < y[1] || (x[1] == y[1] && x[2] <= y[2])))
  {
    var x1, y1 := x[1..], y[1..];
    var x2, y2 := x1[1..], y1[1..];
    var x3, y3 := x2[1..], y2[1..];
    assert x3 == [] && y3 == [];
    assert Below(x2, y2) <==> x2[0] < y2[0] || x2[0] == y2[0];
    assert Below(x1, y1) <==> x1[0] < y1[0] || (x1[0] == y1[0] && Below(x2, y2));
    assert Below(x, y) <==> x[0] < y[0] || (x[0] == y[0] && Below(x1, y1));
  }

  /** The decimal digits of a counter below 1000. */
  lemma DigitsOf(c: nat) returns (d1: nat, d2: nat, d3: nat)
    requires c < 1000
    ensures d1 < 10 && d2 < 10 && d3 < 10 && c == 100 * d1 + 10 * d2 + d3
  {
    d1, d2, d3 := c / 100, (c / 10) % 10, c % 10;
  }

  lemma DigitCharOrder(d: nat, e: nat)
    requires d < 10 && e < 10
    ensures DigitChar(d) < DigitChar(e) <==> d < e
    ensures DigitChar(d) == DigitChar(e) <==> d == e
  {
  }

  /** Comparing three digit characters left to right compares the numbers they spell. */
  lemma ThreeDigitOrder(a1: nat, a2: nat, a3: nat, b1: nat, b2: nat, b3: nat)
    requires a1 < 10 && a2 < 10 && a3 < 10 && b1 < 10 && b2 < 10 && b3 < 10
    ensures var x := [DigitChar(a1), DigitChar(a2), DigitChar(a3)];
            var y := [DigitChar(b1), DigitChar(b2), DigitChar(b3)];
            Below(x, y) <==> 100 * a1 + 10 * a2 + a3 <= 100 * b1 + 10 * b2 + b3
  {
    var x := [DigitChar(a1), DigitChar(a2), DigitChar(a3)];
    var y := [DigitChar(b1), DigitChar(b2), DigitChar(b3)];
    BelowThreeChars(x, y);
    DigitCharOrder(a1, b1);
    DigitCharOrder(a2, b2);
    DigitCharOrder(a3, b3);
  }

  /**
   * For counters 0..999 the string order of the identifiers, which
   * `load_all_issues` sorts by, is the numeric order of the counters.
   */
  lemma IdOrderMatchesCounterOrder(a: nat, b: nat)
    requires a < 1000 && b < 1000
    ensures Below(FormatId(a), FormatId(b)) <==> a <= b
  {
    var a1, a2, a3 := DigitsOf(a);
    var b1, b2, b3 := DigitsOf(b);
    ThreeDigits(a, a1, a2, a3);
    ThreeDigits(b, b1, b2, b3);
    BelowCommonPrefix(IdPrefix, [DigitChar(a1), DigitChar(a2), DigitChar(a3)],
                      [DigitChar(b1), DigitChar(b2), DigitChar(b3)]);
    ThreeDigitOrder(a1, a2, a3, b1, b2, b3);
  }

  /** From 1000 on the orders part: "ISSUE-1000" sorts before "ISSUE-999". */
  lemma IdOrderBreaksAt1000()
    ensures Below(FormatId(1000), FormatId(999))
    ensures !Below(FormatId(999), FormatId(1000))
  {
    assert NatToDecimal(1) == "1";
    assert NatToDecimal(10) == "10";
    assert NatToDecimal(100) == "100";
    assert NatToDecimal(1000) == "1000";
    assert PadLeft("1000", 3) == "1000";
    ThreeDigits(999, 9, 9, 9);
    var x := "1000";
    var y := [DigitChar(9), DigitChar(9), DigitChar(9)];
    assert IdSuffix(1000) == x;
    assert Below(x, y) && !Below(y, x);
    BelowCommonPrefix(IdPrefix, x, y);
    BelowCommonPrefix(IdPrefix, y, x);
  }

  // ---------------------------------------------------------------------
  // The counter

  /**
   * The counter `get_next_issue_id` reads: 0 when the counter file does not
   * exist, else `int(text.strip())`, `None` when that raises.
   */
  function StoredCounter(counterFile: Option<string>): (r: Option<int>)
    ensures counterFile.None? ==> r == Some(0)
  {
    match counterFile
    case None => Some(0)
    case Some(text) => ParseInt(text)
  }

  /** What the allocator writes, it reads back on the next call. */
  lemma CounterRoundTrip(c: int)
    ensures StoredCounter(Some(IntToString(c))) == Some(c)
  {
    ParseIntToString(c);
  }

  // ---------------------------------------------------------------------
  // Enumeration for load_all_issues

  /** `issues_dir.glob("ISSUE-*.json")`, on the name without ".json". */
  predicate MatchesGlob(name: string)
  {
    IsPrefix(IdPrefix, name)
  }

  function IdOf(issue: Issue): string
  {
    issue.id
  }

  predicate Distinct(names: seq<string>)
  {
    forall i, j :: 0 <= i < j < |names| ==> names[i] != names[j]
  }

  /**
   * The loop of `load_all_issues` over a directory listing: the records of
   * the matching documents in listing order, or the error of the first
   * matching document that does not parse.
   */
  function Gather(files: map<string, IssueDocument>, listing: seq<string>): (r: Result<seq<Issue>>)
    requires forall n :: n in listing ==> n in files
    ensures r.Ok? ==> |r.value| <= |listing|
    ensures r.Ok? ==> forall x :: x in r.value ==>
              exists n :: n in listing && MatchesGlob(n) && files[n] == Stored(x)
    ensures r.Err? ==> exists n :: n in listing && MatchesGlob(n) && files[n] == Malformed
  {
    if listing == [] then Ok([])
    else
      var name := listing[|listing| - 1];
      match Gather(files, listing[..|listing| - 1])
      case Err(e) => Err(e)
      case Ok(acc) =>
        if !MatchesGlob(name) then Ok(acc)
        else match files[name]
          case Malformed => Err(DocumentCorrupt(name))
          case Stored(x) => Ok(acc + [x])
  }

  /** One more name of the listing, as one more turn of the loop sees it. */
  lemma GatherStep(files: map<string, IssueDocument>, listing: seq<string>, i: nat)
    requires forall n :: n in listing ==> n in files
    requires i < |listing|
    ensures Gather(files, listing[..i + 1]) ==
            match Gather(files, listing[..i])
            case Err(e) => Err(e)
            case Ok(acc) =>
              if !MatchesGlob(listing[i]) then Ok(acc)
              else match files[listing[i]]
                case Malformed => Err(DocumentCorrupt(listing[i]))
                case Stored(x) => Ok(acc + [x])
  {
    assert listing[..i + 1][..i] == listing[..i];
  }

  /** The matching documents among `names` that hold the record `x`. */
  ghost function Holders(files: map<string, IssueDocument>, names: set<string>, x: Issue): set<string>
  {
    set n | n in names && n in files && MatchesGlob(n) && files[n] == Stored(x)
  }

  /** An error, once raised, ends the loop: a longer listing gives the same error. */
  lemma {:induction false} GatherErrorPersists(files: map<string, IssueDocument>, listing: seq<string>, k: nat)
    requires forall n :: n in listing ==> n in files
    requires k <= |listing| && Gather(files, listing[..k]).Err?
    ensures Gather(files, listing) == Gather(files, listing[..k])
    decreases |listing|
  {
    if k < |listing| {
      var init := listing[..|listing| - 1];
      assert init[..k] == listing[..k];
      GatherErrorPersists(files, init, k);
    } else {
      assert listing[..k] == listing;
    }
  }

  function Names(listing: seq<string>): set<string>
  {
    set n | n in listing
  }

  /** The loop fails exactly when some matching document in the listing is malformed, and names it. */
  lemma {:induction false} GatherFailsOnMalformed(files: map<string, IssueDocument>, listing: seq<string>)
    requires forall n :: n in listing ==> n in files
    ensures Gather(files, listing).Err? <==>
            exists i :: 0 <= i < |listing| && MatchesGlob(listing[i]) && files[listing[i]].Malformed?
    ensures Gather(files, listing).Err? ==>
            var e := Gather(files, listing).error;
            e.DocumentCorrupt? && e.name in listing && MatchesGlob(e.name) && files[e.name].Malformed?
  {
    if listing != [] {
      var init := listing[..|listing| - 1];
      GatherFailsOnMalformed(files, init);
      assert listing == init + [listing[|listing| - 1]];
      if exists i :: 0 <= i < |init| && MatchesGlob(init[i]) && files[init[i]].Malformed? {
        var i :| 0 <= i < |init| && MatchesGlob(init[i]) && files[init[i]].Malformed?;
        assert listing[i] == init[i];
      }
    }
  }

  /** Adding one more document name to the names searched. */
  lemma HoldersStep(files: map<string, IssueDocument>, names: set<string>, name: string, x: Issue)
    requires name !in names && name in files
    ensures |Holders(files, names + {name}, x)| ==
            |Holders(files, names, x)| + (if MatchesGlob(name) && files[name] == Stored(x) then 1 else 0)
  {
    if MatchesGlob(name) && files[name] == Stored(x) {
      assert Holders(files, names + {name}, x) == Holders(files, names, x) + {name};
    } else {
      assert Holders(files, names + {name}, x) == Holders(files, names, x);
    }
  }

  /**
   * Whatever the listing order, a loop that succeeds collects each record
   * as many times as there are matching documents holding it.
   */
  lemma {:induction false} GatherCounts(files: map<string, IssueDocument>, listing: seq<string>)
    requires forall n :: n in listing ==> n in files
    requires Distinct(listing)
    ensures Gather(files, listing).Ok? ==>
            forall x :: multiset(Gather(files, listing).value)[x] == |Holders(files, Names(listing), x)|
  {
    if listing == [] {
      forall x ensures |Holders(files, Names(listing), x)| == 0 {
        assert Holders(files, Names(listing), x) == {};
      }
    } else if Gather(files, listing).Ok? {
      var init := listing[..|listing| - 1];
      var name := listing[|listing| - 1];
      assert listing == init + [name];
      assert Distinct(init);
      GatherCounts(files, init);
      assert name !in init;
      assert Names(listing) == Names(init) + {name};
      forall x ensures multiset(Gather(files, listing).value)[x] == |Holders(files, Names(listing), x)| {
        HoldersStep(files, Names(init), name, x);
      }
    }
  }

  // ---------------------------------------------------------------------
  // The file manager object

  class FileManager {
    /** The text of `issue_counter.txt`; None when the file does not exist. */
    var counterFile: Option<string>
    /** The documents of `issues/`, by file name without ".json". */
    var issueFiles: map<string, IssueDocument>

    /** `__init__`: binds the counter file and the issue directory as they are. */
    constructor (counterFile: Option<string>, issueFiles: map<string, IssueDocument>)
      ensures this.counterFile == counterFile && this.issueFiles == issueFiles
    {
      this.counterFile := counterFile;
      this.issueFiles := issueFiles;
    }

    /**
     * `get_next_issue_id`: reads the counter (0 without a file), writes the
     * counter plus one and returns it formatted; an unparseable counter
     * raises before the write.
     */
    method GetNextIssueId() returns (r: Result<string>)
      modifies this
      ensures issueFiles == old(issueFiles)
      ensures StoredCounter(old(counterFile)).None? ==>
                r == Err(CounterCorrupt) && counterFile == old(counterFile)
      ensures StoredCounter(old(counterFile)).Some? ==>
                var next := StoredCounter(old(counterFile)).value + 1;
                r == Ok(FormatId(next)) && counterFile == Some(IntToString(next))
    {
      var stored := StoredCounter(counterFile);
      if stored.None? {
        return Err(CounterCorrupt);
      }
      var counter := stored.value + 1;
      counterFile := Some(IntToString(counter));
      return Ok(FormatId(counter));
    }

    /** `save_issue`: writes the record to the document named by its id, replacing any there. */
    method SaveIssue(issue: Issue) returns (fileName: string)
      modifies this
      ensures fileName == issue.id + ".json"
      ensures issueFiles == old(issueFiles)[issue.id := Stored(issue)]
      ensures counterFile == old(counterFile)
      ensures LoadIssue(issue.id) == Ok(Some(issue))
      ensures forall other :: other != issue.id ==> LoadIssue(other) == old(LoadIssue(other))
    {
      issueFiles := issueFiles[issue.id := Stored(issue)];
      fileName := issue.id + ".json";
    }

    /** `load_issue`: None for a missing document, the record for a stored one, an error for a malformed one. */
    function LoadIssue(issueId: string): (r: Result<Option<Issue>>)
      reads this
      ensures r == Ok(None) <==> issueId !in issueFiles
      ensures r.Err? <==> issueId in issueFiles && issueFiles[issueId].Malformed?
      ensures r.Ok? && r.value.Some? ==> issueFiles[issueId] == Stored(r.value.value)
    {
      if issueId !in issueFiles then Ok(None)
      else match issueFiles[issueId]
        case Malformed => Err(DocumentCorrupt(issueId))
        case Stored(x) => Ok(Some(x))
    }

    /**
     * `load_all_issues`, given the order in which the directory lists its
     * documents: all or nothing, and sorted by id whatever that order.
     */
    method LoadAllIssues(listing: seq<string>) returns (r: Result<seq<Issue>>)
      requires Distinct(listing)
      requires forall n :: n in listing <==> n in issueFiles
      ensures r.Err? <==> exists n :: n in issueFiles && MatchesGlob(n) && issueFiles[n].Malformed?
      ensures r.Err? ==> r.error.DocumentCorrupt? && r.error.name in issueFiles &&
                         MatchesGlob(r.error.name) && issueFiles[r.error.name].Malformed?
      ensures r.Ok? ==> SortedBy(r.value, IdOf)
      ensures r.Ok? ==> forall x :: multiset(r.value)[x] == |Holders(issueFiles, issueFiles.Keys, x)|
    {
      GatherFailsOnMalformed(issueFiles, listing);
      GatherCounts(issueFiles, listing);
      assert Names(listing) == issueFiles.Keys;
      var issues: seq<Issue> := [];
      var i := 0;
      while i < |listing|
        invariant 0 <= i <= |listing|
        invariant Gather(issueFiles, listing[..i]) == Ok(issues)
      {
        var name := listing[i];
        GatherStep(issueFiles, listing, i);
        if MatchesGlob(name) {
          match issueFiles[name] {
            case Malformed =>
              GatherErrorPersists(issueFiles, listing, i + 1);
              return Err(DocumentCorrupt(name));
            case Stored(x) =>
              issues := issues + [x];
          }
        }
        i := i + 1;
      }
      assert listing[..i] == listing;
      r := Ok(SortBy(issues, IdOf));
    }
  }

  /**
   * The identifiers of counters 1, 2, ..., n have no repeats and, up to
   * 999, come out in ascending string order.
   */
  lemma ConsecutiveIds(ids: seq<string>)
    requires NumberedFromOne(ids)
    ensures forall j, k :: 0 <= j < k < |ids| ==> ids[j] != ids[k]
    ensures |ids| <= 999 ==> forall j, k :: 0 <= j < k < |ids| ==> Below(ids[j], ids[k]) && !Below(ids[k], ids[j])
  {
    forall j, k | 0 <= j < k < |ids|
      ensures ids[j] != ids[k]
      ensures |ids| <= 999 ==> Below(ids[j], ids[k]) && !Below(ids[k], ids[j])
    {
      IdsAtTwoIndices(ids, j, k);
    }
  }

  lemma IdsAtTwoIndices(ids: seq<string>, j: nat, k: nat)
    requires NumberedFromOne(ids) && j < k < |ids|
    ensures ids[j] != ids[k]
    ensures |ids| <= 999 ==> Below(ids[j], ids[k]) && !Below(ids[k], ids[j])
  {
    NumberedFromOneAt(ids, j);
    NumberedFromOneAt(ids, k);
    IdsAtTwoCounters(ids, j, k);
  }

  lemma IdsAtTwoCounters(ids: seq<string>, j: nat, k: nat)
    requires j < k < |ids| && ids[j] == FormatId(j + 1) && ids[k] == FormatId(k + 1)
    ensures ids[j] != ids[k]
    ensures |ids| <= 999 ==> Below(ids[j], ids[k]) && !Below(ids[k], ids[j])
  {
    IdsOfTwoCounters(j + 1, k + 1);
    if |ids| <= 999 {
      assert k + 1 < 1000;
      assert Below(FormatId(j + 1), FormatId(k + 1));
    }
  }

  /** The identifiers of two counters 1 <= a < b differ and, below 1000, are strictly ordered. */
  lemma IdsOfTwoCounters(a: nat, b: nat)
    requires a < b
    ensures FormatId(a) != FormatId(b)
    ensures b < 1000 ==> Below(FormatId(a), FormatId(b)) && !Below(FormatId(b), FormatId(a))
  {
    if FormatId(a) == FormatId(b) {
      FormatIdInjective(a, b);
    }
    if b < 1000 {
      IdOrderMatchesCounterOrder(a, b);
      IdOrderMatchesCounterOrder(b, a);
    }
  }

  /** `ids` are the identifiers of counters 1, 2, ..., |ids| in order. */
  ghost predicate NumberedFromOne(ids: seq<string>)
    decreases |ids|
  {
    |ids| == 0 || (NumberedFromOne(ids[..|ids| - 1]) && ids[|ids| - 1] == FormatId(|ids|))
  }

  /** The k-th of them is the identifier of counter k + 1. */
  lemma {:induction false} NumberedFromOneAt(ids: seq<string>, k: nat)
    requires NumberedFromOne(ids) && k < |ids|
    ensures ids[k] == FormatId(k + 1)
    decreases |ids|
  {
    if k < |ids| - 1 {
      NumberedFromOneAt(ids[..|ids| - 1], k);
    }
  }

  lemma NumberedFromOneExtend(ids: seq<string>, id: string)
    requires NumberedFromOne(ids) && id == FormatId(|ids| + 1)
    ensures NumberedFromOne(ids + [id])
  {
    assert (ids + [id])[..|ids|] == ids;
  }

  /** `n` calls from a fresh counter return ISSUE-001, ISSUE-002, ... in order. */
  method AllocateFromFresh(files: FileManager, n: nat) returns (ids: seq<string>)
    requires files.counterFile.None?
    modifies files
    ensures |ids| == n && NumberedFromOne(ids)
    ensures files.counterFile == if n == 0 then None else Some(IntToString(n))
  {
    ids := [];
    var count := 0;
    while count < n
      invariant count == |ids| <= n
      invariant files.counterFile == if count == 0 then None else Some(IntToString(count))
      invariant NumberedFromOne(ids)
    {
      if count > 0 {
        CounterRoundTrip(count);
      }
      var r := files.GetNextIssueId();
      NumberedFromOneExtend(ids, r.value);
      ids := ids + [r.value];
      count := count + 1;
    }
  }
}

/** One opened git repository: the status classification, the ahead/behind
    distance and the read-only queries, over a snapshot of what the git
    library answers. */
module Repository {
  import opened Wrappers
  import opened Errors

  /** The bits of a git2::Status value. */
  datatype Flag =
    | IndexNew | IndexModified | IndexDeleted | IndexRenamed | IndexTypechange
    | WtNew | WtModified | WtDeleted | WtTypechange | WtRenamed | WtUnreadable
    | Ignored | Conflicted

  /** One status entry's git2::Status: the set of its bits (CURRENT is {}). */
  type FileStatus = set<Flag>

  /** The cached status: not yet computed, or the set of entry statuses. */
  datatype Status = Known(entries: set<FileStatus>) | Unknown

  const StagedFlags: set<Flag> := {IndexNew, IndexModified, IndexDeleted, IndexRenamed, IndexTypechange}
  const UnstagedFlags: set<Flag> := {WtModified, WtDeleted, WtRenamed, WtTypechange}

  // The facet checks look up single-bit values with HashSet::contains, so an
  // entry carrying two bits (staged and then modified again) matches none.

  predicate HasStagedFiles(s: Status)
    ensures HasStagedFiles(s) <==> s.Known? && exists f :: f in StagedFlags && {f} in s.entries
  {
    if s.Known? then
      || {IndexNew} in s.entries
      || {IndexModified} in s.entries
      || {IndexDeleted} in s.entries
      || {IndexRenamed} in s.entries
      || {IndexTypechange} in s.entries
    else
      false
  }

  predicate HasUnstagedFiles(s: Status)
    ensures HasUnstagedFiles(s) <==> s.Known? && exists f :: f in UnstagedFlags && {f} in s.entries
  {
    if s.Known? then
      || {WtModified} in s.entries
      || {WtDeleted} in s.entries
      || {WtRenamed} in s.entries
      || {WtTypechange} in s.entries
    else
      false
  }

  predicate HasUntrackedFiles(s: Status)
    ensures HasUntrackedFiles(s) <==> s.Known? && {WtNew} in s.entries
  {
    if s.Known? then {WtNew} in s.entries else false
  }

  /** An entry with two or more bits set changes no facet. */
  lemma MultiBitEntryIgnored(entries: set<FileStatus>, e: FileStatus)
    requires |e| >= 2
    ensures HasStagedFiles(Known(entries + {e})) == HasStagedFiles(Known(entries))
    ensures HasUnstagedFiles(Known(entries + {e})) == HasUnstagedFiles(Known(entries))
    ensures HasUntrackedFiles(Known(entries + {e})) == HasUntrackedFiles(Known(entries))
  {
    forall f: Flag ensures {f} != e {
      assert |{f}| == 1;
    }
  }

  /** The position of a status symbol in the fixed order "+*_". */
  function Rank(c: char): nat {
    if c == '+' then 0 else if c == '*' then 1 else if c == '_' then 2 else 3
  }

  /** Only status symbols, each at most once, in the order "+*_". */
  predicate InFixedOrder(t: string) {
    && (forall i :: 0 <= i < |t| ==> Rank(t[i]) < 3)
    && (forall i, j :: 0 <= i < j < |t| ==> Rank(t[i]) < Rank(t[j]))
  }

  /** `Display for Status`: '+' for staged, '*' for unstaged, '_' for
      untracked, each present exactly when its facet holds, in that order. */
  function StatusSymbol(s: Status): (r: string)
    ensures ('+' in r) == HasStagedFiles(s)
    ensures ('*' in r) == HasUnstagedFiles(s)
    ensures ('_' in r) == HasUntrackedFiles(s)
    ensures InFixedOrder(r) && |r| <= 3
    ensures s.Unknown? ==> r == ""
  {
    (if HasStagedFiles(s) then "+" else "")
    + (if HasUnstagedFiles(s) then "*" else "")
    + (if HasUntrackedFiles(s) then "_" else "")
  }

  /** Two strings of status symbols in fixed order are equal when they hold
      the same symbols; so StatusSymbol is the only rendering that shows
      exactly the present facets in the order "+*_". */
  lemma {:induction false} FixedOrderDetermined(t: string, u: string)
    requires InFixedOrder(t) && InFixedOrder(u)
    requires forall c :: c in t <==> c in u
    ensures t == u
  {
    assert t != [] ==> t[0] in u;
    assert u != [] ==> u[0] in t;
    if t == [] || u == [] {
    } else {
      assert t[0] in u;
      assert u[0] in t;
      var i :| 0 <= i < |u| && u[i] == t[0];
      var j :| 0 <= j < |t| && t[j] == u[0];
      assert Rank(t[0]) == Rank(u[0]);
      assert t[0] == u[0];
      forall c ensures c in t[1..] <==> c in u[1..] {
        if c in t[1..] {
          var k :| 1 <= k < |t| && t[k] == c;
          assert Rank(t[0]) < Rank(t[k]);
          assert c in u;
        }
        if c in u[1..] {
          var k :| 1 <= k < |u| && u[k] == c;
          assert Rank(u[0]) < Rank(u[k]);
          assert c in t;
        }
      }
      FixedOrderDetermined(t[1..], u[1..]);
      assert t == [t[0]] + t[1..];
      assert u == [u[0]] + u[1..];
    }
  }

  lemma StatusSymbolUnique(s: Status, t: string)
    requires InFixedOrder(t)
    requires ('+' in t) == HasStagedFiles(s)
    requires ('*' in t) == HasUnstagedFiles(s)
    requires ('_' in t) == HasUntrackedFiles(s)
    ensures t == StatusSymbol(s)
  {
    var r := StatusSymbol(s);
    forall c ensures c in t <==> c in r {
      if c in t {
        var k :| 0 <= k < |t| && t[k] == c;
        assert Rank(t[k]) < 3;
      }
      if c in r {
        var k :| 0 <= k < |r| && r[k] == c;
        assert Rank(r[k]) < 3;
      }
    }
    FixedOrderDetermined(t, r);
  }

  /** The Display text of a Status built the way `fmt` does, one push per facet. */
  method FormatStatus(s: Status) returns (text: string)
    ensures text == StatusSymbol(s)
  {
    text := "";
    if HasStagedFiles(s) {
      text := text + "+";
    }
    if HasUnstagedFiles(s) {
      text := text + "*";
    }
    if HasUntrackedFiles(s) {
      text := text + "_";
    }
  }

  /** The relation of the local branch to its upstream. */
  datatype Distance = Same | Ahead | Behind | Both

  /** The match on the ahead/behind counts of `graph_ahead_behind`. */
  function Classify(ahead: nat, behind: nat): (d: Distance)
    ensures d == Same <==> ahead == 0 && behind == 0
    ensures d == Ahead <==> ahead > 0 && behind == 0
    ensures d == Behind <==> ahead == 0 && behind > 0
    ensures d == Both <==> ahead > 0 && behind > 0
  {
    if ahead == 0 && behind == 0 then Same
    else if ahead > 0 && behind == 0 then Ahead
    else if ahead == 0 && behind > 0 then Behind
    else Both
  }

  /** `Display for Distance`. */
  function DistanceSymbol(d: Distance): (s: string)
    ensures |s| == 2
    ensures s == "==" <==> d == Same
    ensures s == ">>" <==> d == Ahead
    ensures s == "<<" <==> d == Behind
    ensures s == "<>" <==> d == Both
  {
    match d
    case Same => "=="
    case Ahead => ">>"
    case Behind => "<<"
    case Both => "<>"
  }

  lemma DistanceSymbolInjective(d: Distance, e: Distance)
    ensures DistanceSymbol(d) == DistanceSymbol(e) ==> d == e
  {
  }

  type Oid = nat

  /** A git reference: its short name (None when not UTF-8) and the commit it
      points at directly (None for a symbolic reference). */
  datatype Reference = Reference(shorthand: Option<string>, target: Option<Oid>)

  /** A local branch: its reference and what `upstream()` answers for it. */
  datatype Branch = Branch(reference: Reference, upstream: Result<Reference, Error>)

  datatype Commit = Commit(summary: Option<string>)

  /** What the git library answers for one repository: the status entries of
      `statuses` (index and work tree, untracked included, ignored excluded),
      `head()`, the local branches by name, the `graph_ahead_behind` counts
      for each pair of commits it can relate, and the commits by id. */
  datatype Backend = Backend(
    statuses: Result<seq<FileStatus>, Error>,
    head: Result<Reference, Error>,
    branches: map<string, Branch>,
    aheadBehind: map<(Oid, Oid), (nat, nat)>,
    commits: map<Oid, Commit>)

  function BranchName(b: Backend): (r: Option<string>)
    ensures b.head.Failure? ==> r.None?
    ensures b.head.Success? ==> r == b.head.value.shorthand
  {
    if b.head.Success? then b.head.value.shorthand else None
  }

  function HeadBranch(b: Backend): (r: Result<Branch, Error>)
    ensures BranchName(b).None? ==> r == Failure(HeadNotBranch)
    ensures r.Success? <==> BranchName(b).Some? && BranchName(b).value in b.branches
    ensures r.Success? ==> r.value == b.branches[BranchName(b).value]
  {
    match BranchName(b)
    case None => Failure(HeadNotBranch)
    case Some(name) =>
      if name in b.branches then Success(b.branches[name])
      else Failure(Git("cannot locate local branch"))
  }

  function HeadOid(b: Backend): (r: Result<Oid, Error>)
    ensures r.Success? <==> HeadBranch(b).Success? && HeadBranch(b).value.reference.target.Some?
    ensures r.Success? ==> r.value == HeadBranch(b).value.reference.target.value
  {
    match HeadBranch(b)
    case Failure(e) => Failure(e)
    case Success(branch) =>
      match branch.reference.target
      case None => Failure(ReferenceIndirect)
      case Some(oid) => Success(oid)
  }

  function RemoteReference(b: Backend): (r: Result<Reference, Error>)
    ensures HeadBranch(b).Failure? ==> r == Failure(HeadBranch(b).error)
    ensures HeadBranch(b).Success? ==> r == HeadBranch(b).value.upstream
  {
    match HeadBranch(b)
    case Failure(e) => Failure(e)
    case Success(branch) => branch.upstream
  }

  function RemoteName(b: Backend): (r: Option<string>)
    ensures RemoteReference(b).Failure? ==> r.None?
    ensures RemoteReference(b).Success? ==> r == RemoteReference(b).value.shorthand
  {
    if RemoteReference(b).Success? then RemoteReference(b).value.shorthand else None
  }

  function RemoteOid(b: Backend): (r: Result<Oid, Error>)
    ensures r.Success? <==> RemoteReference(b).Success? && RemoteReference(b).value.target.Some?
    ensures r.Success? ==> r.value == RemoteReference(b).value.target.value
  {
    match RemoteReference(b)
    case Failure(e) => Failure(e)
    case Success(reference) =>
      match reference.target
      case None => Failure(RemoteNotBranch)
      case Some(oid) => Success(oid)
  }

  /** `distance()`: absent unless both commits resolve and the library relates
      them; otherwise the classification of the counts. */
  function DistanceOf(b: Backend): (r: Option<Distance>)
    ensures r.Some? <==>
              && HeadOid(b).Success? && RemoteOid(b).Success?
              && (HeadOid(b).value, RemoteOid(b).value) in b.aheadBehind
    ensures r.Some? ==>
              var counts := b.aheadBehind[(HeadOid(b).value, RemoteOid(b).value)];
              r.value == Classify(counts.0, counts.1)
    ensures BranchName(b).None? ==> r.None?
  {
    match (HeadOid(b), RemoteOid(b))
    case (Success(head), Success(remote)) =>
      if (head, remote) in b.aheadBehind then
        var counts := b.aheadBehind[(head, remote)];
        Some(Classify(counts.0, counts.1))
      else
        None
    case _ => None
  }

  /** `commit_summary()`: the summary of the head commit. */
  function CommitSummary(b: Backend): (r: Result<string, Error>)
    ensures HeadOid(b).Failure? ==> r == Failure(HeadOid(b).error)
    ensures r.Success? <==>
              && HeadOid(b).Success? && HeadOid(b).value in b.commits
              && b.commits[HeadOid(b).value].summary.Some?
    ensures r.Success? ==> r.value == b.commits[HeadOid(b).value].summary.value
  {
    match HeadOid(b)
    case Failure(e) => Failure(e)
    case Success(oid) =>
      if oid !in b.commits then Failure(Git("cannot find commit"))
      else
        match b.commits[oid].summary
        case None => Failure(SummaryNotUtf8)
        case Some(summary) => Success(summary)
  }

  /** The fold of the status entries into a HashSet. */
  function Collected(entries: seq<FileStatus>): (r: set<FileStatus>)
    ensures forall e :: e in r <==> e in entries
  {
    if |entries| == 0 then {}
    else Collected(entries[..|entries| - 1]) + {entries[|entries| - 1]}
  }

  /** The cached set depends on which statuses occur, not on their order or
      how often they occur. */
  lemma CollectedIgnoresOrder(a: seq<FileStatus>, b: seq<FileStatus>)
    requires forall e :: e in a <==> e in b
    ensures Collected(a) == Collected(b)
  {
  }

  /** `status()` as a function of the cache and the backend: the answer and the
      new cache. A Known cache is answered as it is; an Unknown one is
      computed, and stays Unknown when the library fails. */
  function StatusQuery(cache: Status, b: Backend): (r: (Result<Status, Error>, Status))
    ensures cache.Known? ==> r == (Success(cache), cache)
    ensures cache.Unknown? && b.statuses.Failure? ==> r == (Failure(b.statuses.error), Unknown)
    ensures cache.Unknown? && b.statuses.Success? ==>
              && r.1.Known? && r.0 == Success(r.1)
              && forall e :: e in r.1.entries <==> e in b.statuses.value
  {
    match cache
    case Known(_) => (Success(cache), cache)
    case Unknown =>
      match b.statuses
      case Failure(e) => (Failure(e), Unknown)
      case Success(entries) =>
        var known := Known(Collected(entries));
        (Success(known), known)
  }

  /** Asking twice gives the same answer as asking once. */
  lemma StatusQueryStable(cache: Status, b: Backend)
    ensures StatusQuery(StatusQuery(cache, b).1, b) == StatusQuery(cache, b)
  {
  }

  class Repository {
    const name: string
    /** The git2::Repository handle, as the answers it gives. */
    const inner: Backend
    var status: Status

    /** `Repository::open` for a path the library could open. */
    constructor Open(name: string, inner: Backend)
      ensures this.name == name && this.inner == inner && status == Unknown
    {
      this.name := name;
      this.inner := inner;
      status := Unknown;
    }

    /** `status()`: computes the status only while the cache is Unknown. */
    method Status() returns (r: Result<Status, Error>)
      modifies this
      ensures (r, status) == StatusQuery(old(status), inner)
      ensures old(status).Known? ==> status == old(status)
    {
      if status.Unknown? {
        if inner.statuses.Failure? {
          return Failure(inner.statuses.error);
        }
        status := Known(Collected(inner.statuses.value));
      }
      r := Success(status);
    }
  }
}

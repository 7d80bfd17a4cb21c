/**
  References to references: what is wrong with one, and where a sound one leads
  (openapi/ref_walk.py).
*/
module RefChains {
  import opened ApiGraph
  import opened RefWalk
  import opened RefPointers

  /** How many references a chain may follow before it is given up. */
  const MAX_REF_CHAIN: nat := 32
  /** How many findings a report lists before it only says how many more there are. */
  const MAX_PROBLEMS: nat := 20

  datatype Complaint = PointsOutside | NamesNothing | Circular(chain: seq<string>) | TooLong

  datatype Verdict = Sound | Wrong(complaint: Complaint)

  /** A document and how its references are percent-decoded. */
  datatype Doc = Doc(heap: Heap, root: Item, unquote: string -> string)

  /** What following one reference comes to. */
  datatype Hop = Outside | Nothing | Value | Link(next: string)

  function RefOf(d: Doc, item: Item): Hop {
    if !IsContainer(d.heap, item) || !d.heap[item.id].MapOf? then Value
    else
      match Lookup(d.heap[item.id].entries, REF)
      case Found(Text(next)) => Link(next)
      case _ => Value
  }

  ghost function HopOf(d: Doc, ref: string): Hop {
    if ref == "" || ref[0] != '#' then Outside
    else
      match Resolved(d.heap, d.root, ref, d.unquote)
      case Missing => Nothing
      case Found(item) => RefOf(d, item)
  }

  /** A mapping that has this text under `$ref`. */
  ghost predicate HasRef(d: Doc, item: Item, next: string) {
    && IsContainer(d.heap, item) && d.heap[item.id].MapOf?
    && Entry(REF, Text(next)) in d.heap[item.id].entries
  }

  lemma {:induction false} LookupExactly(entries: seq<Entry>, key: string, value: Item)
    requires UniqueKeys(entries)
    ensures Lookup(entries, key) == Found(value) <==> Entry(key, value) in entries
  {
    if entries == [] {
    } else {
      LookupExactly(entries[1..], key, value);
      assert entries == [entries[0]] + entries[1..];
    }
  }

  /** Following a reference goes on to another exactly where what it resolves to is a mapping that is one. */
  lemma HopExactly(d: Doc, ref: string, next: string)
    requires WellFormed(d.heap)
    ensures HopOf(d, ref).Outside? <==> !("#" <= ref)
    ensures "#" <= ref ==>
              && (HopOf(d, ref).Nothing? <==> Resolved(d.heap, d.root, ref, d.unquote).Missing?)
              && (HopOf(d, ref) == Link(next) <==>
                    var found := Resolved(d.heap, d.root, ref, d.unquote);
                    found.Found? && HasRef(d, found.item, next))
  {
    if "#" <= ref {
      var found := Resolved(d.heap, d.root, ref, d.unquote);
      if found.Found? && IsContainer(d.heap, found.item) && d.heap[found.item.id].MapOf? {
        LookupExactly(d.heap[found.item.id].entries, REF, Text(next));
      }
    }
  }

  /** The chain from `ref` has exactly `n` links, and ends at what is not one. */
  ghost predicate Stops(d: Doc, ref: string, n: nat)
    decreases n
  {
    if n == 0 then !HopOf(d, ref).Link? else HopOf(d, ref).Link? && Stops(d, HopOf(d, ref).next, n - 1)
  }

  /** The hop at which a chain of `n` links ends. */
  ghost function LastHop(d: Doc, ref: string, n: nat): Hop
    decreases n
  {
    if n == 0 || !HopOf(d, ref).Link? then HopOf(d, ref) else LastHop(d, HopOf(d, ref).next, n - 1)
  }

  /** `seen` are the references followed so far, each once. */
  ghost predicate Chain(d: Doc, seen: seq<string>) {
    && seen != []
    && (forall i :: 0 <= i < |seen| - 1 ==> HopOf(d, seen[i]) == Link(seen[i + 1]))
    && (forall i, j :: 0 <= i < j < |seen| ==> seen[i] != seen[j])
  }

  /** The verdict on the first of `seen`, having followed it to the last. */
  ghost function VerdictFrom(d: Doc, seen: seq<string>): Verdict
    requires 0 < |seen| <= MAX_REF_CHAIN
    decreases MAX_REF_CHAIN - |seen|
  {
    match HopOf(d, seen[|seen| - 1])
    case Outside => if |seen| == 1 then Wrong(PointsOutside) else Sound
    case Nothing => if |seen| == 1 then Wrong(NamesNothing) else Sound
    case Value => Sound
    case Link(next) =>
      if next in seen then Wrong(Circular(seen + [next]))
      else if |seen| + 1 > MAX_REF_CHAIN then Wrong(TooLong)
      else VerdictFrom(d, seen + [next])
  }

  ghost function VerdictOn(d: Doc, ref: string): Verdict { VerdictFrom(d, [ref]) }

  method Problem(d: Doc, ref: string) returns (verdict: Verdict)
    ensures verdict == VerdictOn(d, ref)
  {
    var seen := [ref];
    var current := ref;
    while true
      invariant 0 < |seen| <= MAX_REF_CHAIN && seen[0] == ref && current == seen[|seen| - 1]
      invariant Chain(d, seen)
      invariant VerdictFrom(d, seen) == VerdictOn(d, ref)
      decreases MAX_REF_CHAIN - |seen|
    {
      if current == "" || current[0] != '#' {
        return if current == ref then Wrong(PointsOutside) else Sound;
      }
      var found := Resolve(d.heap, d.root, current, d.unquote);
      if found.Missing? {
        return if current == ref then Wrong(NamesNothing) else Sound;
      }
      var following := RefOf(d, found.item);
      if !following.Link? {
        return Sound;
      }
      if following.next in seen {
        return Wrong(Circular(seen + [following.next]));
      }
      seen := seen + [following.next];
      if |seen| > MAX_REF_CHAIN {
        return Wrong(TooLong);
      }
      current := following.next;
    }
  }

  // ---------- what a verdict means ----------

  lemma {:induction false} StopsOnce(d: Doc, ref: string, n: nat, m: nat)
    requires Stops(d, ref, n) && Stops(d, ref, m)
    ensures n == m
    decreases n
  {
    if n == 0 || m == 0 {
    } else {
      StopsOnce(d, HopOf(d, ref).next, n - 1, m - 1);
    }
  }

  /** A chain that stops stops from each of its links, so it comes back to none of them. */
  lemma {:induction false} StopsFrom(d: Doc, seen: seq<string>, i: nat, n: nat)
    requires Chain(d, seen) && i < |seen| && Stops(d, seen[|seen| - 1], n)
    ensures Stops(d, seen[i], n + |seen| - 1 - i)
    ensures LastHop(d, seen[i], n + |seen| - 1 - i) == LastHop(d, seen[|seen| - 1], n)
    decreases |seen| - i
  {
    if i == |seen| - 1 {
    } else {
      StopsFrom(d, seen, i + 1, n);
    }
  }

  lemma StoppingNeverReturns(d: Doc, seen: seq<string>, n: nat)
    requires Chain(d, seen) && Stops(d, seen[|seen| - 1], n)
    ensures HopOf(d, seen[|seen| - 1]).Link? ==> HopOf(d, seen[|seen| - 1]).next !in seen
  {
    var last := seen[|seen| - 1];
    if HopOf(d, last).Link? && HopOf(d, last).next in seen {
      var i :| 0 <= i < |seen| && seen[i] == HopOf(d, last).next;
      StopsFrom(d, seen, i, n);
      StopsOnce(d, seen[i], n - 1, n + |seen| - 1 - i);
    }
  }

  /** After `seen`, `n` more links to where the chain ends: within the limit, and not outside or at nothing at once. */
  ghost predicate EndsWell(d: Doc, seen: seq<string>, n: nat)
    requires seen != []
  {
    |seen| + n <= MAX_REF_CHAIN && Stops(d, seen[|seen| - 1], n) && (|seen| + n == 1 ==> HopOf(d, seen[0]).Value?)
  }

  lemma {:induction false} SoundFromExactly(d: Doc, seen: seq<string>)
    requires Chain(d, seen) && |seen| <= MAX_REF_CHAIN
    ensures VerdictFrom(d, seen).Sound? <==> exists n: nat :: EndsWell(d, seen, n)
    decreases MAX_REF_CHAIN - |seen|
  {
    var last := seen[|seen| - 1];
    var hop := HopOf(d, last);
    if !hop.Link? {
      assert EndsWell(d, seen, 0) <==> |seen| > 1 || hop.Value?;
      assert forall n: nat :: EndsWell(d, seen, n) ==> n == 0;
    } else if hop.next !in seen && |seen| < MAX_REF_CHAIN {
      SoundFromExactly(d, seen + [hop.next]);
      if n: nat :| EndsWell(d, seen + [hop.next], n) {
        assert EndsWell(d, seen, n + 1);
      }
      if n: nat :| EndsWell(d, seen, n) {
        assert EndsWell(d, seen + [hop.next], n - 1);
      }
    } else {
      forall n: nat ensures !EndsWell(d, seen, n) {
        if Stops(d, last, n) { StoppingNeverReturns(d, seen, n); }
      }
    }
  }

  /** `n` links, within the limit, lead from `ref` to a value, or to a later reference that is broken itself. */
  ghost predicate Settles(d: Doc, ref: string, n: nat) {
    n < MAX_REF_CHAIN && Stops(d, ref, n) && (n == 0 ==> HopOf(d, ref).Value?)
  }

  /** The links of `chain` follow each other up to a reference that is already among them. */
  ghost predicate Closes(d: Doc, chain: seq<string>) {
    && 2 <= |chain| <= MAX_REF_CHAIN + 1
    && Chain(d, chain[..|chain| - 1])
    && HopOf(d, chain[|chain| - 2]) == Link(chain[|chain| - 1])
    && chain[|chain| - 1] in chain[..|chain| - 1]
  }

  /** `chain` goes on past the limit without coming back to itself. */
  ghost predicate Overruns(d: Doc, chain: seq<string>) { |chain| == MAX_REF_CHAIN + 1 && Chain(d, chain) }

  lemma PrefixIsFollowed(d: Doc, seen: seq<string>, chain: seq<string>)
    requires Chain(d, seen) && seen <= chain && (Closes(d, chain) || (Overruns(d, chain) && |seen| <= MAX_REF_CHAIN))
    ensures |seen| < |chain| && HopOf(d, seen[|seen| - 1]) == Link(chain[|seen|])
    ensures seen + [chain[|seen|]] <= chain
    ensures chain[|seen|] in seen ==> Closes(d, chain) && chain == seen + [chain[|seen|]]
    ensures chain[|seen|] !in seen ==> |seen| + 1 < |chain| || Overruns(d, chain)
  {
    var k := |seen|;
    if Closes(d, chain) {
      var before := chain[..|chain| - 1];
      if k == |chain| {
        assert false;
      }
      assert before[k - 1] == seen[k - 1] && chain[..k] == seen;
      assert k < |before| ==> before[k] == chain[k];
    } else {
      assert chain[k - 1] == seen[k - 1] && chain[..k] == seen;
    }
  }

  /** One more link that is not yet among them. */
  lemma ChainGrows(d: Doc, seen: seq<string>, next: string)
    requires Chain(d, seen) && HopOf(d, seen[|seen| - 1]) == Link(next)
    ensures next !in seen ==> Chain(d, seen + [next])
    ensures next in seen && |seen| <= MAX_REF_CHAIN ==> Closes(d, seen + [next])
  {
    assert (seen + [next])[..|seen|] == seen;
  }

  lemma {:induction false} CircularFromCloses(d: Doc, seen: seq<string>, chain: seq<string>)
    requires Chain(d, seen) && |seen| <= MAX_REF_CHAIN && VerdictFrom(d, seen) == Wrong(Circular(chain))
    ensures seen <= chain && Closes(d, chain)
    decreases MAX_REF_CHAIN - |seen|
  {
    var next := HopOf(d, seen[|seen| - 1]).next;
    ChainGrows(d, seen, next);
    if next !in seen {
      CircularFromCloses(d, seen + [next], chain);
    }
  }

  lemma {:induction false} ClosesIsCircular(d: Doc, seen: seq<string>, chain: seq<string>)
    requires Chain(d, seen) && |seen| <= MAX_REF_CHAIN && seen <= chain && Closes(d, chain)
    ensures VerdictFrom(d, seen) == Wrong(Circular(chain))
    decreases MAX_REF_CHAIN - |seen|
  {
    PrefixIsFollowed(d, seen, chain);
    var next := chain[|seen|];
    ChainGrows(d, seen, next);
    if next !in seen {
      ClosesIsCircular(d, seen + [next], chain);
    }
  }

  lemma {:induction false} TooLongFromExactly(d: Doc, seen: seq<string>)
    requires Chain(d, seen) && |seen| <= MAX_REF_CHAIN
    ensures VerdictFrom(d, seen) == Wrong(TooLong) <==> exists chain :: seen <= chain && Overruns(d, chain)
    decreases MAX_REF_CHAIN - |seen|
  {
    var hop := HopOf(d, seen[|seen| - 1]);
    if chain :| seen <= chain && Overruns(d, chain) {
      PrefixIsFollowed(d, seen, chain);
      assert hop.Link? && hop.next !in seen && seen + [hop.next] <= chain;
    }
    if hop.Link? && hop.next !in seen {
      if |seen| < MAX_REF_CHAIN {
        TooLongFromExactly(d, seen + [hop.next]);
        if chain :| seen + [hop.next] <= chain && Overruns(d, chain) {
          assert seen <= chain;
        }
      } else {
        assert Overruns(d, seen + [hop.next]);
      }
    }
  }

  /**
    The verdict on a reference, from its chain alone: where it goes at once, where it stops,
    where it comes back to itself, or that it overruns the limit.
  */
  lemma VerdictExactly(d: Doc, ref: string)
    ensures VerdictOn(d, ref) == Wrong(PointsOutside) <==> HopOf(d, ref).Outside?
    ensures VerdictOn(d, ref) == Wrong(NamesNothing) <==> HopOf(d, ref).Nothing?
    ensures VerdictOn(d, ref).Sound? <==> exists n: nat :: Settles(d, ref, n)
    ensures forall chain :: VerdictOn(d, ref) == Wrong(Circular(chain)) <==> [ref] <= chain && Closes(d, chain)
    ensures VerdictOn(d, ref) == Wrong(TooLong) <==> exists chain :: [ref] <= chain && Overruns(d, chain)
  {
    var seen := [ref];
    LaterVerdicts(d, seen);
    SoundFromExactly(d, seen);
    forall n: nat ensures EndsWell(d, seen, n) <==> Settles(d, ref, n) {
    }
    forall chain ensures VerdictOn(d, ref) == Wrong(Circular(chain)) <==> [ref] <= chain && Closes(d, chain) {
      if VerdictFrom(d, seen) == Wrong(Circular(chain)) {
        CircularFromCloses(d, seen, chain);
      }
      if seen <= chain && Closes(d, chain) {
        ClosesIsCircular(d, seen, chain);
      }
    }
    TooLongFromExactly(d, seen);
  }

  lemma {:induction false} LaterVerdicts(d: Doc, seen: seq<string>)
    requires 0 < |seen| <= MAX_REF_CHAIN
    ensures |seen| > 1 || HopOf(d, seen[0]).Link? ==>
            VerdictFrom(d, seen) != Wrong(PointsOutside) && VerdictFrom(d, seen) != Wrong(NamesNothing)
    decreases MAX_REF_CHAIN - |seen|
  {
    var hop := HopOf(d, seen[|seen| - 1]);
    if hop.Link? && hop.next !in seen && |seen| < MAX_REF_CHAIN {
      LaterVerdicts(d, seen + [hop.next]);
    }
  }

  /** The first `n` links of the chain from `ref` are all in `walked`. */
  ghost predicate LinksWithin(d: Doc, ref: string, walked: set<string>, n: nat)
    decreases n
  {
    ref in walked && (n > 0 && HopOf(d, ref).Link? ==> LinksWithin(d, HopOf(d, ref).next, walked, n - 1))
  }

  lemma {:induction false} LastLinkIsWalked(d: Doc, ref: string, walked: set<string>, n: nat)
    requires LinksWithin(d, ref, walked, n) && Stops(d, ref, n)
    requires forall r :: r in walked ==> VerdictOn(d, r).Sound?
    ensures LastHop(d, ref, n).Value?
    decreases n
  {
    if n == 0 {
      VerdictExactly(d, ref);
    } else {
      LastLinkIsWalked(d, HopOf(d, ref).next, walked, n - 1);
    }
  }

  /** With nothing reported, a reference whose links all sit in walked objects leads to a value that is not one. */
  lemma ReportedNothingLeadsToValues(d: Doc, ref: string, walked: set<string>)
    requires forall r :: r in walked ==> VerdictOn(d, r).Sound?
    requires LinksWithin(d, ref, walked, MAX_REF_CHAIN)
    ensures exists n: nat :: Settles(d, ref, n) && LastHop(d, ref, n).Value?
  {
    VerdictExactly(d, ref);
    var n: nat :| Settles(d, ref, n);
    FewerLinks(d, ref, walked, MAX_REF_CHAIN, n);
    LastLinkIsWalked(d, ref, walked, n);
  }

  lemma {:induction false} FewerLinks(d: Doc, ref: string, walked: set<string>, n: nat, m: nat)
    requires LinksWithin(d, ref, walked, n) && m <= n
    ensures LinksWithin(d, ref, walked, m)
    decreases m
  {
    if m == 0 || !HopOf(d, ref).Link? {
    } else {
      FewerLinks(d, HopOf(d, ref).next, walked, n - 1, m - 1);
    }
  }

  // ---------- the report ----------

  datatype Finding = Finding(at: string, target: string, complaint: Complaint)

  datatype Report = Refused(stop: Stop) | Reported(findings: seq<Finding>, hidden: nat)

  ghost function Findings(d: Doc, refs: seq<Ref>): seq<Finding> {
    if refs == [] then [] else Findings(d, refs[..|refs| - 1]) + FindingOn(d, refs[|refs| - 1])
  }

  ghost function FindingOn(d: Doc, r: Ref): seq<Finding> {
    match VerdictOn(d, r.target)
    case Sound => []
    case Wrong(complaint) => [Finding(r.pointer, r.target, complaint)]
  }

  lemma FindingsOneMore(d: Doc, refs: seq<Ref>, i: nat)
    requires i < |refs|
    ensures Findings(d, refs[..i + 1]) == Findings(d, refs[..i]) + FindingOn(d, refs[i])
  {
    assert refs[..i + 1][..i] == refs[..i];
  }

  /** What the document is told: every reference judged afresh, cut after the first problems. */
  ghost function ReportOf(d: Doc): Report {
    var walk := Whole(d.heap, d.root);
    if !walk.stop.Done? then Refused(walk.stop)
    else
      var all := Findings(d, walk.refs);
      if |all| > MAX_PROBLEMS then Reported(all[..MAX_PROBLEMS], |all| - MAX_PROBLEMS) else Reported(all, 0)
  }

  /** The verdicts kept are the ones judging afresh gives. */
  ghost predicate Fresh(d: Doc, checked: map<string, Verdict>) {
    forall ref :: ref in checked ==> checked[ref] == VerdictOn(d, ref)
  }

  /** Each distinct reference is judged once. */
  method Judged(d: Doc, refs: seq<Ref>) returns (problems: seq<Finding>)
    ensures problems == Findings(d, refs)
  {
    problems := [];
    var checked: map<string, Verdict> := map[];
    for i := 0 to |refs|
      invariant problems == Findings(d, refs[..i])
      invariant Fresh(d, checked)
    {
      var r := refs[i];
      FindingsOneMore(d, refs, i);
      if r.target !in checked {
        var verdict := Problem(d, r.target);
        checked := checked[r.target := verdict];
      }
      if checked[r.target].Wrong? {
        problems := problems + [Finding(r.pointer, r.target, checked[r.target].complaint)];
      }
    }
    assert refs[..|refs|] == refs;
  }

  method ReferenceProblems(d: Doc) returns (report: Report)
    ensures report == ReportOf(d)
  {
    var walk := References(d.heap, d.root);
    if !walk.stop.Done? {
      return Refused(walk.stop);
    }
    var problems := Judged(d, walk.refs);
    if |problems| > MAX_PROBLEMS {
      return Reported(problems[..MAX_PROBLEMS], |problems| - MAX_PROBLEMS);
    }
    return Reported(problems, 0);
  }

  lemma {:induction false} NoFindingsExactly(d: Doc, refs: seq<Ref>)
    ensures Findings(d, refs) == [] <==> forall r :: r in refs ==> VerdictOn(d, r.target).Sound?
  {
    if refs == [] {
    } else {
      var front, last := refs[..|refs| - 1], refs[|refs| - 1];
      assert refs == front + [last];
      NoFindingsExactly(d, front);
    }
  }

  /** The references of a walk that are not sound, in their order. */
  ghost function Unsound(d: Doc, refs: seq<Ref>): seq<Ref> {
    if refs == [] then []
    else (if VerdictOn(d, refs[0].target).Sound? then [] else [refs[0]]) + Unsound(d, refs[1..])
  }

  /** The finding says of a reference where it is, what it names and what is wrong with it. */
  ghost predicate Tells(d: Doc, f: Finding, r: Ref) {
    f.at == r.pointer && f.target == r.target && VerdictOn(d, r.target) == Wrong(f.complaint)
  }

  lemma {:induction false} UnsoundOneMore(d: Doc, refs: seq<Ref>)
    requires refs != []
    ensures var front, last := refs[..|refs| - 1], refs[|refs| - 1];
            Unsound(d, refs) == Unsound(d, front) + if VerdictOn(d, last.target).Sound? then [] else [last]
  {
    if |refs| == 1 {
      assert refs[1..] == [] && refs[..0] == [];
    } else {
      UnsoundOneMore(d, refs[1..]);
      assert refs[1..][..|refs| - 2] == refs[..|refs| - 1][1..];
    }
  }

  lemma {:induction false} FindingsTell(d: Doc, refs: seq<Ref>)
    ensures |Findings(d, refs)| == |Unsound(d, refs)|
    ensures forall i :: 0 <= i < |Findings(d, refs)| ==> Tells(d, Findings(d, refs)[i], Unsound(d, refs)[i])
  {
    if refs == [] {
    } else {
      FindingsTell(d, refs[..|refs| - 1]);
      UnsoundOneMore(d, refs);
    }
  }

  /** A report lists the unsound references in the order of the walk, the first MAX_PROBLEMS, and counts the others. */
  lemma ReportTellsExactly(d: Doc)
    requires Whole(d.heap, d.root).stop.Done?
    ensures var wrong, report := Unsound(d, Whole(d.heap, d.root).refs), ReportOf(d);
            && report.Reported? && |report.findings| + report.hidden == |wrong|
            && |report.findings| <= MAX_PROBLEMS && (report.hidden > 0 ==> |report.findings| == MAX_PROBLEMS)
            && forall i :: 0 <= i < |report.findings| ==> Tells(d, report.findings[i], wrong[i])
  {
    FindingsTell(d, Whole(d.heap, d.root).refs);
  }

  /** Nothing is reported exactly when the walk gets to its end and every reference it found is sound. */
  lemma NothingReportedExactly(d: Doc)
    ensures ReportOf(d) == Reported([], 0)
       <==> && Whole(d.heap, d.root).stop.Done?
            && forall r :: r in Whole(d.heap, d.root).refs ==> VerdictOn(d, r.target).Sound?
  {
    NoFindingsExactly(d, Whole(d.heap, d.root).refs);
  }
}

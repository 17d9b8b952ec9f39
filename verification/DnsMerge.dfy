/** How the errors of several name servers become one. */
module DnsMerge {
  import opened DnsTypes

  /** What a list of errors amounts to, before it is rendered. */
  datatype Summary = NotFound | Single(error: DnsError) | Several(errors: seq<DnsError>)

  function Kinds(errs: seq<DnsError>): set<nat> {
    set e | e in errs && Kind(e) != NOT_FOUND_KIND :: Kind(e)
  }

  /** The first error that is not RecordNotFound, or the length of the list. */
  function FirstOther(errs: seq<DnsError>): (k: nat)
    ensures k <= |errs|
    ensures k < |errs| ==> Kind(errs[k]) != NOT_FOUND_KIND
    ensures forall i | 0 <= i < k :: Kind(errs[i]) == NOT_FOUND_KIND
  {
    if errs == [] || Kind(errs[0]) != NOT_FOUND_KIND then 0 else 1 + FirstOther(errs[1..])
  }

  /** Every error that is not RecordNotFound has kind `kind`. */
  ghost predicate OneKind(errs: seq<DnsError>, kind: nat) {
    forall i | 0 <= i < |errs| :: Kind(errs[i]) == NOT_FOUND_KIND || Kind(errs[i]) == kind
  }

  ghost function Summarise(errs: seq<DnsError>): Summary {
    var k := FirstOther(errs);
    if errs == [] then Single(EmptyResponse)
    else if k == |errs| then NotFound
    else if OneKind(errs, Kind(errs[k])) then Single(errs[k])
    else Several(errs)
  }

  function Joined(errs: seq<DnsError>, show: DnsError -> string): string {
    if errs == [] then ""
    else if |errs| == 1 then show(errs[0])
    else show(errs[0]) + "; " + Joined(errs[1..], show)
  }

  lemma JoinedTwo(a: DnsError, b: DnsError, show: DnsError -> string)
    ensures Joined([a, b], show) == show(a) + "; " + show(b)
  {
    assert [a, b][1..] == [b];
  }

  function Render(domain: string, summary: Summary, show: DnsError -> string): DnsError {
    match summary
    case NotFound => RecordNotFound
    case Single(e) => e
    case Several(errs) => SystemResolve("returning nil for domain " + domain + ": " + Joined(errs, show))
  }

  method MergeQueryErrors(domain: string, errs: seq<DnsError>, show: DnsError -> string) returns (merged: DnsError)
    ensures merged == Render(domain, Summarise(errs), show)
  {
    if errs == [] {
      return EmptyResponse;
    }
    var first: nat := |errs|;
    var several := false;
    var i := 0;
    while i < |errs| && !several
      invariant 0 <= i <= |errs| && first <= |errs|
      invariant first < |errs| ==>
        first < i && Kind(errs[first]) != NOT_FOUND_KIND && forall j | 0 <= j < first :: Kind(errs[j]) == NOT_FOUND_KIND
      invariant first == |errs| ==> !several && forall j | 0 <= j < i :: Kind(errs[j]) == NOT_FOUND_KIND
      invariant first < |errs| && !several ==> OneKind(errs[..i], Kind(errs[first]))
      invariant several ==> first < |errs| && !OneKind(errs, Kind(errs[first]))
      decreases |errs| - i, !several
    {
      if Kind(errs[i]) != NOT_FOUND_KIND {
        if first == |errs| {
          first := i;
        } else if Kind(errs[first]) != Kind(errs[i]) {
          several := true;
        }
      }
      i := i + 1;
    }
    assert !several ==> errs[..i] == errs;
    assert first == FirstOther(errs);
    if several {
      return SystemResolve("returning nil for domain " + domain + ": " + Joined(errs, show));
    }
    if first < |errs| {
      if errs[first].EmptyResponse? {
        return EmptyResponse;
      }
      return errs[first];
    }
    return RecordNotFound;
  }

  lemma OneKindSet(errs: seq<DnsError>)
    requires FirstOther(errs) < |errs|
    ensures Kind(errs[FirstOther(errs)]) in Kinds(errs)
    ensures OneKind(errs, Kind(errs[FirstOther(errs)])) <==> Kinds(errs) == {Kind(errs[FirstOther(errs)])}
  {
    var k := FirstOther(errs);
    var first := Kind(errs[k]);
    assert errs[k] in errs;
    if OneKind(errs, first) {
      assert forall n | n in Kinds(errs) :: n == first;
    }
    if Kinds(errs) == {first} {
      forall i | 0 <= i < |errs|
        ensures Kind(errs[i]) == NOT_FOUND_KIND || Kind(errs[i]) == first
      {
        assert errs[i] in errs;
        assert Kind(errs[i]) != NOT_FOUND_KIND ==> Kind(errs[i]) in Kinds(errs);
      }
    }
  }

  lemma NoKinds(errs: seq<DnsError>)
    ensures Kinds(errs) == {} <==> FirstOther(errs) == |errs|
  {
    var k := FirstOther(errs);
    if k < |errs| {
      assert errs[k] in errs;
      assert Kind(errs[k]) in Kinds(errs);
    }
  }

  /** The kind a set of kinds merges to. */
  ghost predicate MergesTo(kinds: set<nat>, kind: nat) {
    if kinds == {} then kind == NOT_FOUND_KIND
    else if exists k | k in kinds :: kinds == {k} then kinds == {kind}
    else kind == COMBINED_KIND
  }

  lemma MergesOne(k: nat)
    ensures MergesTo({k}, k)
  {
    assert k in {k};
  }

  lemma MergesMany(kinds: set<nat>, k: nat)
    requires k in kinds && kinds != {k}
    ensures MergesTo(kinds, COMBINED_KIND)
  {
    forall other | other in kinds
      ensures kinds != {other}
    {
      assert k in {other} ==> k == other;
    }
  }

  lemma RenderedKind(domain: string, summary: Summary, show: DnsError -> string)
    ensures Kind(Render(domain, summary, show))
         == if summary.NotFound? then NOT_FOUND_KIND else if summary.Single? then Kind(summary.error) else COMBINED_KIND
  {
    hide Joined;
  }

  /** The merged kind depends only on which kinds other than RecordNotFound occur; order and repeats do not matter. */
  lemma MergedKind(domain: string, errs: seq<DnsError>, show: DnsError -> string)
    requires errs != []
    ensures MergesTo(Kinds(errs), Kind(Render(domain, Summarise(errs), show)))
  {
    hide Kinds, OneKind, Render, Kind;
    RenderedKind(domain, Summarise(errs), show);
    NoKinds(errs);
    var k := FirstOther(errs);
    if k < |errs| {
      hide MergesTo;
      OneKindSet(errs);
      var first := Kind(errs[k]);
      if OneKind(errs, first) {
        MergesOne(first);
      } else {
        MergesMany(Kinds(errs), first);
      }
    }
  }

  /** Two lists of errors with the same kinds merge to the same kind. */
  lemma SameKinds(domain: string, a: seq<DnsError>, b: seq<DnsError>, show: DnsError -> string)
    requires a != [] && b != [] && Kinds(a) == Kinds(b)
    ensures Kind(Render(domain, Summarise(a), show)) == Kind(Render(domain, Summarise(b), show))
  {
    MergedKind(domain, a, show);
    MergedKind(domain, b, show);
    hide Kinds, Summarise, Render;
    var m, n := Kind(Render(domain, Summarise(a), show)), Kind(Render(domain, Summarise(b), show));
    if Kinds(a) == {m} {
      assert n in {m} || Kinds(b) != {n};
    }
  }

  /** Two errors have the same kind exactly when they are the same variant. */
  predicate SameVariant(a: DnsError, b: DnsError) {
    match a
    case RecordNotFound => b.RecordNotFound?
    case EmptyResponse => b.EmptyResponse?
    case RCodeError(_) => b.RCodeError?
    case InvalidQueryStrategy(_) => b.InvalidQueryStrategy?
    case NoQueryStrategy(_) => b.NoQueryStrategy?
    case InvalidClientIpLength(_) => b.InvalidClientIpLength?
    case InvalidStaticHostsIp(_) => b.InvalidStaticHostsIp?
    case InvalidFakeDnsSetting => b.InvalidFakeDnsSetting?
    case InvalidFakeDnsCidr(_) => b.InvalidFakeDnsCidr?
    case LruBiggerThanSubnet(_, _) => b.LruBiggerThanSubnet?
    case NoFakeDnsEngine => b.NoFakeDnsEngine?
    case Features(_) => b.Features?
    case NotImplemented(_) => b.NotImplemented?
    case WireFormat(_) => b.WireFormat?
    case SkipDnsServer(_) => b.SkipDnsServer?
    case SystemResolve(_) => b.SystemResolve?
  }

  lemma KindIsVariant(a: DnsError, b: DnsError)
    ensures Kind(a) == Kind(b) <==> SameVariant(a, b)
  {
  }

  /**
   Which error comes out: the first that is not RecordNotFound if the others are RecordNotFound or of its variant,
   and the texts of all of them if not.
   */
  lemma MergedErrorIs(domain: string, errs: seq<DnsError>, show: DnsError -> string, k: nat)
    requires k < |errs| && errs[k] != RecordNotFound && forall i | 0 <= i < k :: errs[i] == RecordNotFound
    ensures
      var merged := Render(domain, Summarise(errs), show);
      if forall i | 0 <= i < |errs| :: errs[i] == RecordNotFound || SameVariant(errs[i], errs[k]) then merged == errs[k]
      else merged == SystemResolve("returning nil for domain " + domain + ": " + Joined(errs, show))
  {
    hide Joined;
    forall e
      ensures Kind(e) == NOT_FOUND_KIND <==> e == RecordNotFound
    {
      KindIsVariant(e, RecordNotFound);
    }
    forall i | 0 <= i < |errs|
      ensures Kind(errs[i]) == Kind(errs[k]) <==> SameVariant(errs[i], errs[k])
    {
      KindIsVariant(errs[i], errs[k]);
    }
    hide Kind, SameVariant;
    assert FirstOther(errs) == k;
  }

  /** The texts are joined in order, with a separator between every two. */
  lemma {:induction false} JoinedAppend(a: seq<DnsError>, b: seq<DnsError>, show: DnsError -> string)
    requires a != [] && b != []
    ensures Joined(a + b, show) == Joined(a, show) + "; " + Joined(b, show)
  {
    assert (a + b)[1..] == a[1..] + b;
    if |a| > 1 {
      JoinedAppend(a[1..], b, show);
    } else {
      assert a[1..] + b == b;
    }
  }

  // ---------- Telling rendered errors apart ----------

  /** The display of a resolution error holds its text, as the source's does. */
  ghost predicate Quotes(show: DnsError -> string) {
    forall text :: |show(SystemResolve(text))| >= |text|
  }

  function Weight(errs: seq<DnsError>, show: DnsError -> string): nat {
    if errs == [] then 0 else |show(errs[0])| + 2 + Weight(errs[1..], show)
  }

  lemma {:induction false} WeightAppend(a: seq<DnsError>, b: seq<DnsError>, show: DnsError -> string)
    ensures Weight(a + b, show) == Weight(a, show) + Weight(b, show)
  {
    if a == [] {
      assert a + b == b;
    } else {
      assert (a + b)[1..] == a[1..] + b;
      WeightAppend(a[1..], b, show);
    }
  }

  lemma {:induction false} JoinedLength(errs: seq<DnsError>, show: DnsError -> string)
    requires errs != []
    ensures |Joined(errs, show)| + 2 == Weight(errs, show)
  {
    if |errs| > 1 {
      JoinedLength(errs[1..], show);
    } else {
      assert errs[1..] == [];
    }
  }

  lemma {:induction false} WeightMember(errs: seq<DnsError>, e: DnsError, show: DnsError -> string)
    requires e in errs
    ensures |show(e)| + 2 <= Weight(errs, show)
  {
    if errs[0] != e {
      assert e in errs[1..];
      WeightMember(errs[1..], e, show);
    }
  }

  /** An error that is part of a list is never the rendering of the list. */
  lemma PartIsNotWhole(domain: string, errs: seq<DnsError>, e: DnsError, show: DnsError -> string)
    requires Quotes(show) && e in errs
    ensures e != Render(domain, Several(errs), show)
  {
    JoinedLength(errs, show);
    WeightMember(errs, e, show);
    hide Joined, Weight;
    if e.SystemResolve? {
      assert |show(SystemResolve(e.text))| >= |e.text|;
      assert |"returning nil for domain "| > 0;
    }
  }

  /** Two lists of different weight render differently. */
  lemma DifferentWeights(domain: string, a: seq<DnsError>, b: seq<DnsError>, show: DnsError -> string)
    requires a != [] && b != [] && Weight(a, show) != Weight(b, show)
    ensures Render(domain, Several(a), show) != Render(domain, Several(b), show)
  {
    JoinedLength(a, show);
    JoinedLength(b, show);
    hide Joined, Weight;
    var head := "returning nil for domain " + domain + ": ";
    assert |head + Joined(a, show)| == |head| + |Joined(a, show)|;
    assert |head + Joined(b, show)| == |head| + |Joined(b, show)|;
  }
}

/** Sub-domain lookup in the black list: IsInBlacklist of daemon/dnsd/dnsd.go. */
module Blacklist {
  import opened Text

  const MAX_NAME := 255
  const MIN_DOMAIN := 4

  /** strings.IndexRune for the full stop; -1 if there is none. */
  function FirstDot(s: string): (r: int)
    ensures -1 <= r < |s|
    ensures r >= 0 ==> s[r] == '.' && forall i :: 0 <= i < r ==> s[i] != '.'
    ensures r == -1 ==> '.' !in s
  {
    if s == "" then -1
    else if s[0] == '.' then 0
    else
      var r := FirstDot(s[1..]);
      if r == -1 then -1 else r + 1
  }

  /** The names that stripping sub-domains adds to the candidates. */
  function Stripped(name: string): seq<string>
    decreases |name|
  {
    var index := FirstDot(name);
    if index < 1 || index == |name| - 1 then []
    else
      var rest := name[index + 1..];
      (if |rest| < MIN_DOMAIN then [] else [rest]) + Stripped(rest)
  }

  /** The full stop at p has something behind it, and there is no empty label up to it. */
  predicate Boundary(name: string, p: int) {
    && 0 <= p < |name| - 1 && name[p] == '.'
    && forall q :: 0 <= q <= p && name[q] == '.' ==> q > 0 && name[q - 1] != '.'
  }

  /** x is what follows such a full stop, and long enough for a domain. */
  ghost predicate IsParent(name: string, x: string) {
    |x| >= MIN_DOMAIN && exists p :: Boundary(name, p) && x == name[p + 1..]
  }

  lemma {:induction false} BoundaryBehind(name: string, index: int, p: int)
    requires index == FirstDot(name) && 1 <= index < p
    ensures Boundary(name, p) <==> Boundary(name[index + 1..], p - index - 1)
  {
    var rest, r := name[index + 1..], p - index - 1;
    assert forall q :: 0 <= q < |rest| ==> rest[q] == name[q + index + 1];
    if Boundary(rest, r) {
      forall q | 0 <= q <= p && name[q] == '.' ensures q > 0 && name[q - 1] != '.' {
        if q > index {
          assert rest[q - index - 1] == '.';
          assert name[q - 1] == rest[q - index - 2];
        }
      }
    }
    if Boundary(name, p) {
      forall q | 0 <= q <= r && rest[q] == '.' ensures q > 0 && rest[q - 1] != '.' {
        assert name[q + index + 1] == '.';
      }
    }
  }

  lemma {:induction false} ParentBehind(name: string, x: string)
    requires 1 <= FirstDot(name) < |name| - 1
    ensures var rest := name[FirstDot(name) + 1..];
      IsParent(name, x) <==> (|x| >= MIN_DOMAIN && x == rest) || IsParent(rest, x)
  {
    var index := FirstDot(name);
    var rest := name[index + 1..];
    assert Boundary(name, index);
    if IsParent(name, x) {
      var p :| Boundary(name, p) && x == name[p + 1..];
      if p > index {
        BoundaryBehind(name, index, p);
        assert x == rest[p - index - 1 + 1..];
      }
    }
    if IsParent(rest, x) {
      var p :| Boundary(rest, p) && x == rest[p + 1..];
      BoundaryBehind(name, index, p + index + 1);
      assert x == name[p + index + 1 + 1..];
    }
  }

  /** The stripped names are the parents. */
  lemma {:induction false} StrippedAreParents(name: string, x: string)
    ensures x in Stripped(name) <==> IsParent(name, x)
    decreases |name|
  {
    if FirstDot(name) < 1 || FirstDot(name) >= |name| - 1 {
    } else {
      StrippedAreParents(name[FirstDot(name) + 1..], x);
      ParentBehind(name, x);
    }
  }

  function Normalised(name: string): string { ToLower(TrimSpace(name)) }

  /** White space around a name and the case of its letters do not matter. */
  lemma {:induction false} NormalisedName(left: string, name: string, right: string)
    requires AllSpace(left) && AllSpace(right) && NoSpaceAround(name)
    ensures Normalised(left + name + right) == ToLower(name)
  {
    TrimPadded(left, name, right);
  }

  ghost predicate Blocked(blackList: set<string>, name: string) {
    || |name| > MAX_NAME
    || Normalised(name) in blackList
    || exists x :: x in blackList && IsParent(Normalised(name), x)
  }

  method CollectCandidates(name: string) returns (candidates: seq<string>)
    ensures candidates == [name] + Stripped(name)
  {
    var nameOrIP := name;
    candidates := [nameOrIP];
    while true
      invariant candidates + Stripped(nameOrIP) == [name] + Stripped(name)
      decreases |nameOrIP|
    {
      var index := FirstDot(nameOrIP);
      if index < 1 || index == |nameOrIP| - 1 {
        break;
      }
      nameOrIP := nameOrIP[index + 1..];
      if |nameOrIP| < MIN_DOMAIN {
        continue;
      }
      candidates := candidates + [nameOrIP];
    }
  }

  /** The lookup loop of IsInBlacklist. */
  method AnyListed(blackList: set<string>, candidates: seq<string>) returns (r: bool)
    ensures r <==> exists x :: x in candidates && x in blackList
  {
    for i := 0 to |candidates|
      invariant forall j :: 0 <= j < i ==> candidates[j] !in blackList
    {
      if candidates[i] in blackList {
        assert candidates[i] in candidates;
        return true;
      }
    }
    return false;
  }

  /** IsInBlacklist. */
  method IsInBlacklist(blackList: set<string>, nameOrIP: string) returns (r: bool)
    ensures r <==> Blocked(blackList, nameOrIP)
  {
    if |nameOrIP| > MAX_NAME {
      return true;
    }
    var name := Normalised(nameOrIP);
    var candidates := CollectCandidates(name);
    r := AnyListed(blackList, candidates);
    forall x ensures x in candidates <==> x == name || IsParent(name, x) {
      StrippedAreParents(name, x);
    }
  }

  /** No label of the name is empty. */
  predicate NoEmptyLabels(name: string) {
    name != "" && forall q :: 0 <= q < |name| && name[q] == '.' ==> 0 < q < |name| - 1 && name[q - 1] != '.'
  }

  /** For names without empty labels every suffix at a label boundary counts. */
  lemma {:induction false} ParentsOfPlainNames(name: string, x: string)
    requires NoEmptyLabels(name)
    ensures IsParent(name, x) <==>
      |x| >= MIN_DOMAIN && exists p :: 0 <= p < |name| && name[p] == '.' && x == name[p + 1..]
  {
    if |x| >= MIN_DOMAIN && exists p :: 0 <= p < |name| && name[p] == '.' && x == name[p + 1..] {
      var p :| 0 <= p < |name| && name[p] == '.' && x == name[p + 1..];
      assert Boundary(name, p);
    }
  }

  /** If a name of at least four characters is blocked, so is every sub-domain of it. */
  lemma {:induction false} SubdomainsBlocked(blackList: set<string>, sub: string, name: string)
    requires var full := sub + "." + name; NoEmptyLabels(full) && Normalised(full) == full
    requires Normalised(name) == name && |name| >= MIN_DOMAIN
    requires Blocked(blackList, name)
    ensures Blocked(blackList, sub + "." + name)
  {
    if |sub + "." + name| <= MAX_NAME {
      if name in blackList {
        ParentsOfSubdomain(sub, name, name);
      } else {
        var x :| x in blackList && IsParent(name, x);
        ParentsOfSubdomain(sub, name, x);
      }
    }
  }

  /** A name and its parents are parents of its sub-domains. */
  lemma {:induction false} ParentsOfSubdomain(sub: string, name: string, x: string)
    requires NoEmptyLabels(sub + "." + name) && |x| >= MIN_DOMAIN && (x == name || IsParent(name, x))
    ensures IsParent(sub + "." + name, x)
  {
    var full, n := sub + "." + name, |sub|;
    ParentsOfPlainNames(full, x);
    assert full[n] == '.' && full[n + 1..] == name;
    if x != name {
      var p :| Boundary(name, p) && x == name[p + 1..];
      assert full[n + 1 + p] == '.' && full[n + 1 + p + 1..] == x;
    }
  }
}

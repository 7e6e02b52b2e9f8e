/** The bounded set of escrows already spent, and how far apart it keeps two uses of one. */
module ServedEscrows {
  import opened Seqs

  const MAX_SERVED_ESCROWS := 4096

  datatype Attempt = Attempt(escrow: string, verified: bool)

  /** Remembered escrows, oldest first, after an admission. */
  function Remember(order: seq<string>, escrow: string): seq<string> {
    Last(order + [escrow], MAX_SERVED_ESCROWS)
  }

  function AfterAttempt(order: seq<string>, a: Attempt): seq<string> {
    if a.escrow in order || !a.verified then order else Remember(order, a.escrow)
  }

  function Order(attempts: seq<Attempt>): seq<string> {
    if attempts == [] then [] else AfterAttempt(Order(attempts[..|attempts| - 1]), attempts[|attempts| - 1])
  }

  predicate Admitted(before: seq<Attempt>, a: Attempt) {
    a.escrow !in Order(before) && a.verified
  }

  /** Every escrow ever admitted, in order, nothing forgotten. */
  function Admissions(attempts: seq<Attempt>): seq<string> {
    if attempts == [] then []
    else
      var before, a := attempts[..|attempts| - 1], attempts[|attempts| - 1];
      Admissions(before) + if Admitted(before, a) then [a.escrow] else []
  }

  lemma NewestRemembered<T>(s: seq<T>, n: nat, i: nat)
    requires i < |s| <= i + n
    ensures s[i] in Last(s, n)
  {
    assert Last(s, n)[i - (|s| - |Last(s, n)|)] == s[i];
  }

  /** What is remembered is the newest 4096 of all admissions, without repetition. */
  lemma {:induction false} OrderIsNewest(attempts: seq<Attempt>)
    ensures Order(attempts) == Last(Admissions(attempts), MAX_SERVED_ESCROWS)
    ensures Distinct(Order(attempts)) && |Order(attempts)| <= MAX_SERVED_ESCROWS
  {
    if attempts != [] {
      var before, a := attempts[..|attempts| - 1], attempts[|attempts| - 1];
      OrderIsNewest(before);
      if Admitted(before, a) {
        LastOfAppend(Admissions(before), [a.escrow], MAX_SERVED_ESCROWS);
      } else {
        assert Admissions(before) + [] == Admissions(before);
      }
    }
  }

  /** A verified escrow is refused as a replay if and only if it is among the newest 4096. */
  lemma RefusedExactly(before: seq<Attempt>, escrow: string)
    ensures !Admitted(before, Attempt(escrow, true))
      <==> escrow in Last(Admissions(before), MAX_SERVED_ESCROWS)
  {
    OrderIsNewest(before);
  }

  /** An escrow was ever admitted if and only if some attempt with it was verified: no replay check
      and no forgetting keeps a paid escrow out for good, and nothing unverified gets in. */
  lemma {:induction false} AdmittedExactly(attempts: seq<Attempt>, escrow: string)
    ensures escrow in Admissions(attempts) <==> Attempt(escrow, true) in attempts
  {
    if attempts != [] {
      var before, a := attempts[..|attempts| - 1], attempts[|attempts| - 1];
      assert attempts == before + [a];
      AdmittedExactly(before, escrow);
      OrderIsNewest(before);
      NewestFromAll(Admissions(before), MAX_SERVED_ESCROWS, escrow);
    }
  }

  lemma NewestFromAll<T>(s: seq<T>, n: nat, x: T)
    ensures x in Last(s, n) ==> x in s
  {
  }

  lemma {:induction false} FarApart(attempts: seq<Attempt>)
    ensures var all := Admissions(attempts);
      forall i, j :: 0 <= i < j < |all| && all[i] == all[j] ==> j - i > MAX_SERVED_ESCROWS
  {
    if attempts != [] {
      var before, a := attempts[..|attempts| - 1], attempts[|attempts| - 1];
      FarApart(before);
      OrderIsNewest(before);
      var all := Admissions(before);
      if Admitted(before, a) {
        forall i | 0 <= i < |all| && all[i] == a.escrow ensures |all| - i > MAX_SERVED_ESCROWS {
          if |all| - i <= MAX_SERVED_ESCROWS {
            NewestRemembered(all, MAX_SERVED_ESCROWS, i);
          }
        }
      }
    }
  }

  function CountOthers(s: seq<string>, escrow: string): nat {
    if s == [] then 0 else (if s[0] != escrow then 1 else 0) + CountOthers(s[1..], escrow)
  }

  lemma {:induction false} CountSplit(a: seq<string>, b: seq<string>, escrow: string)
    ensures CountOthers(a + b, escrow) == CountOthers(a, escrow) + CountOthers(b, escrow)
  {
    if a == [] {
      assert a + b == b;
    } else {
      TailAppend(a, b);
      CountSplit(a[1..], b, escrow);
    }
  }

  lemma {:induction false} CountAllOthers(s: seq<string>, escrow: string)
    requires escrow !in s
    ensures CountOthers(s, escrow) == |s|
  {
    if s != [] {
      CountAllOthers(s[1..], escrow);
    }
  }

  /** Between two admissions of one escrow at least 4096 others were admitted. */
  lemma {:induction false} Separated(attempts: seq<Attempt>, i: nat, j: nat)
    requires i < j < |Admissions(attempts)| && Admissions(attempts)[i] == Admissions(attempts)[j]
    ensures CountOthers(Admissions(attempts)[i + 1..j], Admissions(attempts)[i]) >= MAX_SERVED_ESCROWS
    decreases j
  {
    var all := Admissions(attempts);
    var between := all[i + 1..j];
    if all[i] in between {
      var k :| 0 <= k < |between| && between[k] == all[i];
      Separated(attempts, i, i + 1 + k);
      assert between == between[..k] + between[k..] && between[..k] == all[i + 1..i + 1 + k];
      CountSplit(between[..k], between[k..], all[i]);
    } else {
      FarApart(attempts);
      CountAllOthers(between, all[i]);
    }
  }

  class Served {
    var seen: set<string>
    var order: seq<string>

    /** The set and the queue hold the same distinct escrows. */
    ghost predicate Valid()
      reads this
    {
      && seen == (set e | e in order)
      && Distinct(order)
      && |order| <= MAX_SERVED_ESCROWS
    }

    constructor ()
      ensures Valid() && order == []
    {
      seen, order := {}, [];
    }

    method Contains(escrow: string) returns (found: bool)
      requires Valid()
      ensures found <==> escrow in order
    {
      found := escrow in seen;
    }

    method Insert(escrow: string)
      requires Valid()
      modifies this
      ensures Valid()
      ensures order == AfterAttempt(old(order), Attempt(escrow, true))
    {
      if escrow in seen {
        return;
      }
      seen := seen + {escrow};
      order := order + [escrow];
      ghost var grown := order;
      while |order| > MAX_SERVED_ESCROWS
        invariant |order| <= MAX_SERVED_ESCROWS + 1 && Distinct(order) && seen == (set e | e in order)
        invariant Last(order, MAX_SERVED_ESCROWS) == Last(grown, MAX_SERVED_ESCROWS)
        decreases |order|
      {
        var oldest := order[0];
        assert order == [oldest] + order[1..];
        order := order[1..];
        seen := seen - {oldest};
      }
    }

    /** Admission of one escrow payment, taken as one step: reject a replay, verify, reserve. */
    method Authorize(a: Attempt) returns (ok: bool)
      requires Valid()
      modifies this
      ensures Valid() && order == AfterAttempt(old(order), a)
      ensures ok <==> a.escrow !in old(order) && a.verified
    {
      var replay := Contains(a.escrow);
      if replay || !a.verified {
        return false;
      }
      Insert(a.escrow);
      return true;
    }
  }
}

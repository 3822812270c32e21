/**
 * Identity resolution (`findUserId`, customBadge.tsx:178-191): which user a
 * username element belongs to, read off the chain of elements from the
 * username element up to (not including) `document.body`.
 */
module Identity {
  import opened Wrappers
  import opened Dom
  import Text

  /** The one user the badge is for. */
  const OWNER_ID: string := "298055455614173184"

  /** A `data-user-id` that is present and non-empty (an empty one is falsy and skipped). */
  predicate HasUserId(e: Element)
  {
    e.dataUserId.Some? && e.dataUserId.value != ""
  }

  /** An `aria-label` that contains OWNER_ID anywhere. */
  predicate LabelMentionsOwner(e: Element)
  {
    e.ariaLabel.Some? && Text.Includes(e.ariaLabel.value, OWNER_ID)
  }

  /** What one element of the walk decides: its user id if it has one, else
      OWNER_ID if its label mentions the owner, else nothing (walk on). */
  function Examine(e: Element): (r: Option<string>)
    ensures r.Some? <==> HasUserId(e) || LabelMentionsOwner(e)
    ensures r.Some? ==> r.value != "" && (r.value == OWNER_ID || e.dataUserId == r)
    ensures HasUserId(e) ==> r == e.dataUserId
  {
    if HasUserId(e) then e.dataUserId
    else if LabelMentionsOwner(e) then Some(OWNER_ID)
    else None
  }

  /** The id the walk returns: the first element that decides, or `null`. */
  function Resolve(chain: seq<Element>): Option<string>
  {
    if chain == [] then None
    else if Examine(chain[0]).Some? then Examine(chain[0])
    else Resolve(chain[1..])
  }

  /** Element `k` is the first one in the chain that decides. */
  predicate FirstHitAt(chain: seq<Element>, k: nat)
  {
    k < |chain| && Examine(chain[k]).Some? && forall m :: 0 <= m < k ==> Examine(chain[m]).None?
  }

  /** The walk returns what the first deciding element says: nearer elements win. */
  lemma {:induction false} ResolveFirstHit(chain: seq<Element>, k: nat)
    requires FirstHitAt(chain, k)
    ensures Resolve(chain) == Examine(chain[k])
  {
    if k > 0 {
      assert Examine(chain[0]).None?;
      assert FirstHitAt(chain[1..], k - 1) by {
        forall m | 0 <= m < k - 1 ensures Examine(chain[1..][m]).None? {
          assert chain[1..][m] == chain[m + 1];
        }
      }
      ResolveFirstHit(chain[1..], k - 1);
    }
  }

  /** The walk returns `null` exactly when no element of the chain decides, and
      otherwise there is a first deciding element whose verdict it returns. */
  lemma {:induction false} ResolveCases(chain: seq<Element>)
    ensures Resolve(chain).None? <==> forall k :: 0 <= k < |chain| ==> Examine(chain[k]).None?
    ensures Resolve(chain).Some? ==> exists k: nat :: FirstHitAt(chain, k) && Resolve(chain) == Examine(chain[k])
  {
    if chain != [] {
      ResolveCases(chain[1..]);
      if Examine(chain[0]).Some? {
        assert FirstHitAt(chain, 0);
      } else {
        assert forall k :: 0 <= k < |chain| - 1 ==> chain[1..][k] == chain[k + 1];
        if Resolve(chain).Some? {
          var k: nat :| FirstHitAt(chain[1..], k) && Resolve(chain[1..]) == Examine(chain[1..][k]);
          assert chain[1..][k] == chain[k + 1];
          assert FirstHitAt(chain, k + 1);
        }
      }
    }
  }

  /** The result is never label text: it is OWNER_ID or some element's own non-empty user id. */
  lemma {:induction false} ResolvedValue(chain: seq<Element>)
    ensures Resolve(chain).Some? ==>
      Resolve(chain).value == OWNER_ID ||
      exists k :: 0 <= k < |chain| && HasUserId(chain[k]) && chain[k].dataUserId == Resolve(chain)
  {
    if chain != [] && Examine(chain[0]).None? {
      ResolvedValue(chain[1..]);
      if Resolve(chain).Some? && Resolve(chain).value != OWNER_ID {
        var k :| 0 <= k < |chain[1..]| && HasUserId(chain[1..][k]) && chain[1..][k].dataUserId == Resolve(chain);
        assert chain[1..][k] == chain[k + 1];
      }
    }
  }

  /** Walking on past an element that does not decide changes nothing: the whole
      chain resolves as its prefix does when the prefix decides, and as the rest
      does otherwise. */
  lemma {:induction false} ResolveAppend(a: seq<Element>, b: seq<Element>)
    ensures Resolve(a + b) == if Resolve(a).Some? then Resolve(a) else Resolve(b)
  {
    if a != [] {
      assert (a + b)[0] == a[0];
      assert (a + b)[1..] == a[1..] + b;
      ResolveAppend(a[1..], b);
    } else {
      assert a + b == b;
    }
  }

  /** A nearer element carrying a user id other than OWNER_ID suppresses any
      farther label that mentions the owner. */
  lemma NearerIdSuppresses(chain: seq<Element>, k: nat, far: nat)
    requires FirstHitAt(chain, k) && HasUserId(chain[k]) && chain[k].dataUserId.value != OWNER_ID
    requires k < far < |chain| && LabelMentionsOwner(chain[far])
    ensures Resolve(chain) == chain[k].dataUserId && Resolve(chain) != Some(OWNER_ID)
  {
    ResolveFirstHit(chain, k);
  }

  /** The label test is substring containment: any label with OWNER_ID somewhere
      inside it resolves to exactly OWNER_ID when no user id comes first. */
  lemma LabelContainment(e: Element, i: nat)
    requires !HasUserId(e) && e.ariaLabel.Some? && Text.OccursAt(e.ariaLabel.value, OWNER_ID, i)
    ensures Examine(e) == Some(OWNER_ID)
  {
    Text.IncludesIff(e.ariaLabel.value, OWNER_ID);
  }

  /** A label that does not contain OWNER_ID never ends the walk on its own. */
  lemma LabelWithoutOwner(e: Element, rest: seq<Element>)
    requires !HasUserId(e) && forall i: nat :: !(e.ariaLabel.Some? && Text.OccursAt(e.ariaLabel.value, OWNER_ID, i))
    ensures Resolve([e] + rest) == Resolve(rest)
  {
    if e.ariaLabel.Some? {
      Text.IncludesIff(e.ariaLabel.value, OWNER_ID);
    }
    assert ([e] + rest)[1..] == rest;
  }
}

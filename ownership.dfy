/**
 * The guards in front of every mutating route: `checkAuthenticated`, then
 * `checkIfBookOwner` / `checkIfAuthorOwner`, which compare the record's
 * `user` with the caller's id.
 */
module Ownership {
  import opened Common

  /**
   * `owner` is the `user` of the record `findById` returned (None when it
   * found nothing); `caller` is the logged-in user (None when there is none).
   */
  function Authorize(owner: Option<Id>, caller: Option<Id>): (r: Outcome)
    ensures r.Pass? <==> caller.Some? && owner == caller
    ensures caller.None? ==> r == Fail(Unauthenticated)
    ensures caller.Some? && owner.None? ==> r == Fail(NotFound)
    ensures caller.Some? && owner.Some? && owner != caller ==> r == Fail(NotOwner)
  {
    if caller.None? then Fail(Unauthenticated)
    else if owner.None? then Fail(NotFound)
    else if owner.value != caller.value then Fail(NotOwner)
    else Pass
  }
}

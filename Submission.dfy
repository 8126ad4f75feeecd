/**
 * The idea-submission form of `src/app/page.tsx`: three state cells (`idea`,
 * `isLoading`, `userId`), the guarded `handleSubmit` handler and the submit
 * button's disabled condition. The remote `submit_idea` call is recorded as
 * a request and its result is an outcome supplied by the caller; router
 * navigations are recorded in order.
 */
module Submission {
  import opened Strings

  /** How the awaited `apiService.submitIdea` call ended. */
  datatype Outcome = Submitted(ideaId: string) | Failed

  /** The body of one `submit_idea` request. */
  datatype Request = Request(idea: string, userId: string)

  /** The early-return guard of `handleSubmit` (page.tsx:26). */
  predicate Rejects(idea: string, isLoading: bool, userId: string)
  {
    Trim(idea) == "" || isLoading || userId == ""
  }

  /** The submit button's `disabled` expression (page.tsx:55). */
  predicate ButtonDisabled(idea: string, isLoading: bool, userId: string)
  {
    isLoading || Trim(idea) == "" || userId == ""
  }

  /** The guard turns away exactly a blank idea, a submission in flight and a
      missing user id; the button is disabled in exactly those cases. */
  lemma RejectsExactly(idea: string, isLoading: bool, userId: string)
    ensures Rejects(idea, isLoading, userId) <==> AllWhitespace(idea) || isLoading || userId == ""
    ensures ButtonDisabled(idea, isLoading, userId) <==> Rejects(idea, isLoading, userId)
  {
    TrimEmptyIff(idea);
  }

  /** Where a successful submission navigates. */
  function EvaluationPath(ideaId: string): string
  {
    "/" + ideaId + "/evaluation"
  }

  class HomePage {
    var idea: string
    var isLoading: bool
    var userId: string
    /** The `submit_idea` requests sent so far. */
    var requests: seq<Request>
    /** The `router.push` targets so far. */
    var navigations: seq<string>

    /** The initial `useState` values (page.tsx:13-15). */
    constructor ()
      ensures idea == "" && !isLoading && userId == ""
      ensures requests == [] && navigations == []
    {
      idea, isLoading, userId := "", false, "";
      requests, navigations := [], [];
    }

    /** The mount effect (page.tsx:18-22) stores the id `getUserId` returned. */
    method Mount(id: string)
      modifies this
      ensures userId == id
      ensures idea == old(idea) && isLoading == old(isLoading)
      ensures requests == old(requests) && navigations == old(navigations)
    {
      userId := id;
    }

    /** The text area's `onChange` (page.tsx:51); the area is disabled while a
        submission is in flight (page.tsx:53), so then nothing changes. */
    method EditIdea(text: string)
      modifies this
      ensures idea == if old(isLoading) then old(idea) else text
      ensures isLoading == old(isLoading) && userId == old(userId)
      ensures requests == old(requests) && navigations == old(navigations)
    {
      if !isLoading {
        idea := text;
      }
    }

    /** `handleSubmit` up to its `await` (page.tsx:24-30): the guard, then
        `isLoading` is set and the untrimmed idea is sent. */
    method BeginSubmit() returns (sent: bool)
      modifies this
      ensures sent == !old(Rejects(idea, isLoading, userId))
      ensures idea == old(idea) && userId == old(userId) && navigations == old(navigations)
      ensures !sent ==> isLoading == old(isLoading) && requests == old(requests)
      ensures sent ==> isLoading && requests == old(requests) + [Request(old(idea), old(userId))]
      ensures sent ==> Rejects(idea, isLoading, userId)
    {
      if Rejects(idea, isLoading, userId) {
        return false;
      }
      isLoading := true;
      requests := requests + [Request(idea, userId)];
      sent := true;
    }

    /** `handleSubmit` after its `await` (page.tsx:31-36): navigate on
        success, log on failure, and in either case clear `isLoading`. */
    method FinishSubmit(outcome: Outcome)
      modifies this
      ensures !isLoading
      ensures outcome.Submitted? ==> navigations == old(navigations) + [EvaluationPath(outcome.ideaId)]
      ensures outcome.Failed? ==> navigations == old(navigations)
      ensures idea == old(idea) && userId == old(userId) && requests == old(requests)
    {
      if outcome.Submitted? {
        navigations := navigations + [EvaluationPath(outcome.ideaId)];
      }
      isLoading := false;
    }

    /** A whole `handleSubmit` whose request completes before any other event. */
    method HandleSubmit(outcome: Outcome) returns (sent: bool)
      modifies this
      ensures sent == !old(Rejects(idea, isLoading, userId))
      ensures idea == old(idea) && userId == old(userId)
      ensures !sent ==> isLoading == old(isLoading) && requests == old(requests)
                        && navigations == old(navigations)
      ensures sent ==> !isLoading && requests == old(requests) + [Request(old(idea), old(userId))]
      ensures sent ==> navigations == old(navigations)
                                      + (if outcome.Submitted? then [EvaluationPath(outcome.ideaId)] else [])
    {
      sent := BeginSubmit();
      if sent {
        FinishSubmit(outcome);
      }
    }
  }
}

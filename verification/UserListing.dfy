/** Which users `ListUsers` finds, read off the query and the fields of the users. */
module UserListing {
  import opened Domain
  import opened Tables
  import opened Text
  import opened TextMeaning
  import opened Paging
  import A = Accounts
  import MS = MemoryStore

  /** The words a keyword is looked up in. */
  function Words(u: User): string {
    u.username + " " + u.nickname + " " + u.email
  }

  /** A status that is not blank is compared, a keyword that is not blank is searched for; both
      are trimmed, and the keyword is found in either case. */
  ghost predicate IsAskedFor(u: User, keyword: string, status: string) {
    && ((exists c | c in status :: !IsSpace(c)) ==> u.status == TrimSpace(status))
    && ((exists c | c in keyword :: !IsSpace(c)) ==> Occurs(ToLower(Words(u)), ToLower(TrimSpace(keyword))))
  }

  lemma FilterMeaning(u: User, keyword: string, status: string)
    ensures MS.UserFilter(keyword, status)(u) <==> IsAskedFor(u, keyword, status)
  {
    TrimSpaceBlank(keyword);
    TrimSpaceBlank(status);
    ContainsMeaning(ToLower(Words(u)), ToLower(TrimSpace(keyword)));
    assert |ToLower(TrimSpace(keyword))| == |TrimSpace(keyword)|;
  }

  /** The list `ListUsers` cuts its page from: the stored users asked for, all of them, by
      increasing ID. */
  lemma FoundExactly(t: Table<User>, keyword: string, status: string)
    requires Numbered(t, A.USER_ID)
    ensures var all := Select(t.rows, MS.UserFilter(keyword, status), t.next);
      && (forall u :: u in all <==> u.id in t.rows && t.rows[u.id] == u && IsAskedFor(u, keyword, status))
      && (forall i, j | 0 <= i < j < |all| :: all[i].id < all[j].id)
  {
    var keep := MS.UserFilter(keyword, status);
    var all := Select(t.rows, keep, t.next);
    SelectMeaning(t, A.USER_ID, keep);
    forall u ensures u in all <==> u.id in t.rows && t.rows[u.id] == u && IsAskedFor(u, keyword, status) {
      FilterMeaning(u, keyword, status);
      assert A.USER_ID(u) == u.id;
    }
    forall i, j | 0 <= i < j < |all| ensures all[i].id < all[j].id {
      assert A.USER_ID(all[i]) < A.USER_ID(all[j]);
    }
  }
}

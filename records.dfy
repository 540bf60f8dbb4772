/** The records of the membership document. */
module Records {
  import opened Optional
  import opened Dates

  /** An entry of `unknown` or `pending`: the tier name at the time of the
   *  donation (absent when none qualified), the expiration date and the
   *  amount paid. */
  datatype PendingEntry = PendingEntry(tier: Option<string>, expireDate: Date, paymentAmount: int)

  /** An entry of `members`. */
  datatype MemberEntry = MemberEntry(expireDate: Date, paymentAmount: int)

  /** `new Date() >= new Date(expireDate)`: the stored date is read as local
   *  midnight, so the entry has expired once today's date reaches it. */
  predicate Expired(e: MemberEntry, today: Date) {
    OnOrBefore(e.expireDate, today)
  }
}

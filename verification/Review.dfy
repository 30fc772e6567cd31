/** What the tables of the pipeline and of the engine share. */
module Review {
  type RegId = nat

  datatype ReviewStatus = Pending | AutoApproved | HumanApproved | Rejected
}

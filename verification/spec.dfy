/** The group specification records of `v1alpha1/types.go`: one
    `GoogleGroupSpec` per group, keyed by its email address. The Kubernetes
    type and object metadata carry nothing the model uses and are dropped. */
module GroupSpecs {
  import opened Wrappers

  /** One member of a group: an email address and a role string. The role is
      free text here; only the syncer checks it against the closed set. */
  datatype Member = Member(email: string, role: string)

  /** `GoogleGroupSpec`. `autoSync` is a `*bool`: `None` is nil. */
  datatype GroupSpec = GroupSpec(
    autoSync: Option<bool>,
    email: string,
    name: string,
    description: string,
    whoCanPostMessage: string,
    whoCanJoin: string,
    allowExternalMembers: string,
    members: seq<Member>)

  function EmailOf(m: Member): string { m.email }

  /** The set of addresses appearing in a member list. */
  function Emails(ms: seq<Member>): (r: set<string>)
    ensures forall i :: 0 <= i < |ms| ==> ms[i].email in r
    ensures forall e :: e in r ==> exists i :: 0 <= i < |ms| && ms[i].email == e
  {
    if |ms| == 0 then {}
    else Emails(ms[..|ms| - 1]) + {ms[|ms| - 1].email}
  }

  lemma EmailsAppend(ms: seq<Member>, m: Member)
    ensures Emails(ms + [m]) == Emails(ms) + {m.email}
  {
    assert (ms + [m])[..|ms|] == ms;
  }

  /** No two members share an address. */
  predicate DistinctEmails(ms: seq<Member>)
  {
    forall i, j :: 0 <= i < j < |ms| ==> ms[i].email != ms[j].email
  }

  /** A nil or true `AutoSync` takes part in syncing; only an explicit false
      opts out. */
  predicate AutoSyncEnabled(spec: GroupSpec)
  {
    spec.autoSync != Some(false)
  }
}

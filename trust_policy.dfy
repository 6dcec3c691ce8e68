/** The trust policy of the VPC CNI add-on role: a single federated statement whose
    `StringEquals` condition keys are derived from the OIDC provider's ARN. */
module TrustPolicy {
  import opened Text

  /** Who may assume the role: an AWS service, or a federated identity provider.
      `Service` stands for the principals of the cluster and node roles, whose trust
      policies are not part of this model; only `Federated` is built here. */
  datatype Principal = Service(service: string) | Federated(provider: string)

  /** One IAM policy statement; `stringEquals` is the `Condition.StringEquals` object. */
  datatype Statement = Statement(
    effect: string,
    principal: Principal,
    action: string,
    stringEquals: map<string, string>)

  /** An IAM policy document, before it is serialised to JSON. */
  datatype PolicyDocument = PolicyDocument(version: string, statements: seq<Statement>)

  const PolicyVersion: string := "2012-10-17"
  const AllowEffect: string := "Allow"
  const WebIdentityAction: string := "sts:AssumeRoleWithWebIdentity"
  /** The Kubernetes service account the CNI plugin runs as. */
  const CniServiceAccount: string := "system:serviceaccount:kube-system:aws-node"
  /** The audience the OIDC provider was registered for. */
  const StsAudience: string := "sts.amazonaws.com"

  /** `"/".join(arn.split("/")[1:])`: the ARN without its first `/`-separated segment
      and without that `/`. */
  function ConditionPrefix(oidcArn: string): (prefix: string)
    ensures |prefix| <= |oidcArn|
  {
    var parts := Split(oidcArn, '/');
    JoinSplit(oidcArn, '/');
    Join('/', parts[1..])
  }

  /** The subject condition key: the condition prefix, then `:sub`. */
  function SubKey(oidcArn: string): (key: string)
    ensures |key| == |ConditionPrefix(oidcArn)| + 4
    ensures ConditionPrefix(oidcArn) <= key
    ensures key[|key| - 4..] == ":sub"
  {
    ConditionPrefix(oidcArn) + ":sub"
  }

  /** The audience condition key: the condition prefix, then `:aud`. It agrees with the
      subject key except in its last four characters. */
  function AudKey(oidcArn: string): (key: string)
    ensures |key| == |SubKey(oidcArn)|
    ensures key[..|key| - 4] == SubKey(oidcArn)[..|key| - 4] == ConditionPrefix(oidcArn)
    ensures key[|key| - 4..] == ":aud"
  {
    ConditionPrefix(oidcArn) + ":aud"
  }

  /** The assume-role policy of the CNI role for the resolved OIDC provider ARN. */
  function CniTrustPolicy(oidcArn: string): (doc: PolicyDocument)
    ensures doc.version == PolicyVersion && |doc.statements| == 1
    ensures doc.statements[0].effect == AllowEffect
    ensures doc.statements[0].principal == Federated(oidcArn)
    ensures doc.statements[0].action == WebIdentityAction
    ensures |doc.statements[0].stringEquals| == 2
    ensures doc.statements[0].stringEquals.Keys == {SubKey(oidcArn), AudKey(oidcArn)}
    ensures doc.statements[0].stringEquals[SubKey(oidcArn)] == CniServiceAccount
    ensures doc.statements[0].stringEquals[AudKey(oidcArn)] == StsAudience
  {
    ConditionKeysDistinct(oidcArn);
    PolicyDocument(PolicyVersion, [
      Statement(
        AllowEffect,
        Federated(oidcArn),
        WebIdentityAction,
        map[SubKey(oidcArn) := CniServiceAccount, AudKey(oidcArn) := StsAudience])])
  }

  /** The two condition keys differ (in their last character), so the dictionary
      literal keeps both entries. */
  lemma ConditionKeysDistinct(oidcArn: string)
    ensures SubKey(oidcArn) != AudKey(oidcArn)
  {
    var p := ConditionPrefix(oidcArn);
    assert SubKey(oidcArn)[|p| + 3] == 'b';
    assert AudKey(oidcArn)[|p| + 3] == 'd';
  }

  /** Everything up to and including the first `/` is dropped; the rest of the ARN,
      later `/`s included, is kept verbatim. */
  lemma PrefixAfterFirstSlash(head: string, rest: string)
    requires '/' !in head
    ensures ConditionPrefix(head + "/" + rest) == rest
    ensures Split(head + "/" + rest, '/')[0] == head
  {
    SplitAtFirst(head, rest, '/');
    assert ([head] + Split(rest, '/'))[1..] == Split(rest, '/');
    JoinSplit(rest, '/');
  }

  /** An ARN without `/` gives the empty prefix, so the keys degenerate to
      `:sub` and `:aud`. */
  lemma PrefixWithoutSlash(oidcArn: string)
    requires '/' !in oidcArn
    ensures ConditionPrefix(oidcArn) == ""
    ensures SubKey(oidcArn) == ":sub" && AudKey(oidcArn) == ":aud"
  {
    SplitWithoutSeparator(oidcArn, '/');
  }

  /** With at least one `/`, first segment, `/` and prefix reassemble the ARN. */
  lemma {:induction false} PrefixReassembles(oidcArn: string)
    requires '/' in oidcArn
    ensures Split(oidcArn, '/')[0] + "/" + ConditionPrefix(oidcArn) == oidcArn
  {
    var parts := Split(oidcArn, '/');
    assert multiset(oidcArn)['/'] > 0;
    assert |parts| >= 2;
    JoinSplit(oidcArn, '/');
  }

  /** The prefix is empty exactly when the ARN has no `/` or its first `/` is its
      last character. */
  lemma PrefixEmptyIff(oidcArn: string)
    ensures ConditionPrefix(oidcArn) == "" <==>
      ('/' !in oidcArn || |Split(oidcArn, '/')[0]| == |oidcArn| - 1)
  {
    if '/' in oidcArn {
      PrefixReassembles(oidcArn);
    } else {
      PrefixWithoutSlash(oidcArn);
    }
  }

  /** For an ARN `head/rest` whose head holds no `/`, the `StringEquals` map binds
      `rest:sub` to the CNI service account and `rest:aud` to the STS audience. */
  lemma ConditionMapAfterFirstSlash(head: string, rest: string)
    requires '/' !in head
    ensures CniTrustPolicy(head + "/" + rest).statements[0].stringEquals ==
      map[rest + ":sub" := CniServiceAccount, rest + ":aud" := StsAudience]
  {
    PrefixAfterFirstSlash(head, rest);
  }

  /** An example: an EKS OIDC provider ARN loses its `arn:...:oidc-provider/`
      head and keeps the issuer host and path. */
  lemma ExamplePrefix(arn: string)
    requires arn == "arn:aws:iam::ACCOUNT:oidc-provider/oidc.example.com/id/ABC"
    ensures ConditionPrefix(arn) == "oidc.example.com/id/ABC"
  {
    var head := "arn:aws:iam::ACCOUNT:oidc-provider";
    var rest := "oidc.example.com/id/ABC";
    assert head + "/" + rest == arn;
    PrefixAfterFirstSlash(head, rest);
  }
}

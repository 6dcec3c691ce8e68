# EKS cluster with a CNI role trusted through OIDC, and node user data

This project models the pure core of a Pulumi program. The program sets up an EKS cluster, an IAM role for the VPC CNI add-on that trusts the cluster's OIDC provider, and a managed node group whose launch template carries base64-encoded MIME user data. The Dafny model covers four parts:

- **Trust policy** (`trust_policy.dfy`, with `text.dfy` for Python's `str.split` and `str.join` on one character).
  - The document holds one statement: `Allow`, principal `Federated(oidcArn)`, action `sts:AssumeRoleWithWebIdentity`.
  - Its `StringEquals` condition has two keys: the condition prefix followed by `:sub`, and the prefix followed by `:aud`.
  - The condition prefix is `"/".join(arn.split("/")[1:])`.
- **Cluster wiring** (`cluster.dfy`).
  - The cluster's subnets are the private subnets followed by the public ones.
  - The node group runs on-demand capacity in the private subnets only.
  - Its scaling configuration is desired 2, min 2, max 3.
- **User data** (`userdata.dfy`).
  - The `str.format` substitution of the cluster name into the MIME template.
  - The UTF-8 encoding of the result (`utf8.dfy`).
  - Base64 encoding as in section 4 of RFC 4648 (`base64.dfy`).
  - The final `.decode('UTF-8')` back to text.
- **Shared types** (`common.dfy`): bytes, `Option` and `Result`.

Each encoder is paired with a strict decoder, and the round trips are proved in both directions. They are then combined into properties of `generate_userdata` as a whole:

- it round-trips back to the rendered document;
- its length is 4·⌈n/3⌉;
- it uses only the base64 alphabet, with at most two `=` and only at the end;
- it is injective in the cluster name.

The issuer ARN, the subnet id lists and the cluster name are resolved by Pulumi at deployment time. Here they are plain parameters.

The condition prefix is not the result of parsing a URL: the code drops everything up to and including the ARN's first `/` (`"/".join(arn.split("/")[1:])`). `ConditionPrefix` models that, and `PrefixAfterFirstSlash`, `PrefixWithoutSlash` and `PrefixEmptyIff` state its exact behaviour.

## Model

The source operations are modelled by `Text.Split` and `Text.Join` (`str.split` and `str.join`), `UserData.Format` (`str.format`), `Utf8.Encode` and `Utf8.Decode` (`.encode('UTF-8')` and `.decode('UTF-8')`) and `Base64.Encode` (`base64.b64encode`). The rows below name the members whose contracts state what these operations do.

| member | source | states |
|---|---|---|
| Text.Split | __main__.py:66 | `str.split` on one character gives one more part than there are separators, and no part contains the separator |
| Text.JoinSplit | __main__.py:66 | joining the parts of a split with the same separator gives back the original string |
| Text.SplitJoin | __main__.py:66 | splitting a join of separator-free parts (at least one) gives back the parts |
| Text.SplitAtFirst | __main__.py:66 | splitting at the first separator yields the text before it, then the split of the rest |
| TrustPolicy.SubKey | __main__.py:66-67 | the subject key is the condition prefix followed by `:sub` |
| TrustPolicy.AudKey | __main__.py:68 | the audience key is the condition prefix followed by `:aud`: the same length and prefix as the subject key, differing only in the suffix |
| TrustPolicy.ConditionPrefix | __main__.py:66-68 | the condition prefix is never longer than the ARN |
| TrustPolicy.PrefixAfterFirstSlash | __main__.py:66-68 | for an ARN `head/rest` where head has no `/`, the prefix is exactly `rest` (later `/`s kept) and the first split part is `head` |
| TrustPolicy.PrefixWithoutSlash | __main__.py:66-68 | an ARN without `/` gives the empty prefix, so the keys are just `:sub` and `:aud` |
| TrustPolicy.PrefixReassembles | __main__.py:66-68 | for an ARN with a `/`, first segment + `/` + prefix is the ARN |
| TrustPolicy.PrefixEmptyIff | __main__.py:66-68 | the prefix is empty exactly when the ARN has no `/` or its only `/` is the last character |
| TrustPolicy.ExamplePrefix | __main__.py:66-68 | an `arn:...:oidc-provider/host/id/X` ARN yields `host/id/X` |
| TrustPolicy.ConditionKeysDistinct | __main__.py:66-68 | the `:sub` and `:aud` keys always differ, so the dictionary literal keeps both entries |
| TrustPolicy.CniTrustPolicy | __main__.py:53-73 | version 2012-10-17; exactly one statement: Allow, principal Federated(arn), action sts:AssumeRoleWithWebIdentity; the condition has exactly the two keys, bound to `system:serviceaccount:kube-system:aws-node` and `sts.amazonaws.com` |
| TrustPolicy.ConditionMapAfterFirstSlash | __main__.py:64-69 | for an ARN `head/rest` with no `/` in head, the `StringEquals` map is exactly {rest+":sub" ↦ `system:serviceaccount:kube-system:aws-node`, rest+":aud" ↦ `sts.amazonaws.com`} |
| Cluster.ClusterSubnetIds | __main__.py:40-41 | cluster subnets have length private + public, private ones first, in order, then public ones, in order |
| Cluster.ClusterSubnetsAreUnion | __main__.py:40-41 | a subnet is a cluster subnet exactly when it is private or public |
| Cluster.NodegroupScaling | __main__.py:128-130 | min ≤ desired ≤ max and at least one node |
| Cluster.ManagedNodes | __main__.py:119-130 | the node group is ON_DEMAND, in the private subnets, with the given cluster, role and template, and its scaling is the 2/2/3 literal, within bounds |
| Cluster.NodeSubnetsArePrefix | __main__.py:40-41 | the node group's subnets are a prefix of the cluster's subnets, so each one is a cluster subnet |
| UserData.IndexOf | utils.py:18 | the returned index is the first occurrence of the character, or the length when it is absent |
| UserData.FormatBraceFree | utils.py:18 | `str.format` copies text without braces through unchanged |
| UserData.TemplateShape | utils.py:8-18 | the template is a brace-free head, the single field `{cluster_name}`, and a brace-free tail |
| UserData.PlaceholderOnce | utils.py:15 | `{cluster_name}` occurs in the template only at one position |
| UserData.FormatTemplate | utils.py:8-18 | formatting the template never fails and yields head + value + tail |
| UserData.Render | utils.py:8-18 | `TEMPLATE.format(cluster_name=name)` succeeds, and its value is the rendered document |
| UserData.RenderSubstitutes | utils.py:15 | the name appears verbatim (braces included) between the unchanged head and tail |
| UserData.RenderFraming | utils.py:8-17 | the document starts with `MIME-Version: 1.0`, the opening boundary follows the MIME header, the script part follows the opening boundary, and it ends with `--==MYBOUNDARY==--` and a newline |
| UserData.RenderInjective | utils.py:15 | different cluster names render to different documents |
| UserData.GenerateUserdata | utils.py:6-18 | the user data reads the base64 output byte for byte as ASCII text, and its own UTF-8 bytes are that base64 output |
| UserData.UserdataRoundTrip | utils.py:6-18 | base64-decoding the user data gives the UTF-8 bytes of the rendered document, and UTF-8-decoding those gives the document |
| UserData.UserdataShape | utils.py:6-18 | the user data has 4·⌈n/3⌉ characters for n document bytes; only the last `PadCount(n)` (≤ 2) are `=`, and all others are base64 symbols |
| UserData.UserdataInjective | utils.py:6-18 | different cluster names give different user data |
| Utf8.EncodeChar | utils.py:18 | one to four bytes per code point; one byte exactly for ASCII; continuation bytes after the first |
| Utf8.Encode | utils.py:18 | at least one byte per character, and exactly one per character for ASCII text |
| Utf8.DecodeEncodeChar | utils.py:18 | the strict decoder reads an encoded code point back, consuming exactly its bytes |
| Utf8.DecodeEncode | utils.py:18 | decoding the UTF-8 encoding of any string gives it back |
| Utf8.EncodeDecode | utils.py:18 | any byte string the strict decoder accepts re-encodes to itself |
| Utf8.DecodeAscii | utils.py:18 | ASCII bytes always decode, one character per byte, each with the byte's value |
| Base64.Symbol | utils.py:8 | every 6-bit value maps to an ASCII byte that is not the pad `=` |
| Base64.SymbolValue | utils.py:8 | a symbol's value maps back to that symbol |
| Base64.SymbolValueOfSymbol | utils.py:8 | the value of the symbol for a 6-bit value is that value |
| Base64.Encode | utils.py:8 | the encoding is 4·⌈n/3⌉ bytes long |
| Base64.DecodeEncodeGroup | utils.py:8 | a full 3-byte group decodes from its four symbols |
| Base64.DecodeEncode | utils.py:8 | decoding the encoding of any bytes gives them back |
| Base64.EncodeDecode | utils.py:8 | any canonical padded text the decoder accepts is the encoding of what it decodes to |
| Base64.EncodeAlphabet | utils.py:8 | at most two pad bytes, exactly in the last `PadCount(n)` positions; every other byte is an alphabet symbol |
| Base64.EncodeAscii | utils.py:8 | every encoded byte is ASCII |

## Left out

- The Pulumi resource constructors, providers, `ResourceOptions`, `Output.all`/`Output.apply` and `pulumi.export` are not modelled. The values they resolve at deployment time (OIDC provider ARN, subnet ids, cluster name, role ARNs, launch-template name and version) are plain parameters.
- `json.dumps` is not modelled: the trust policy is a structured `PolicyDocument` value, not its serialized bytes or key order.
- The service-principal trust policies of the cluster role and the node role are not modelled. Neither are the managed-policy ARN lists, the add-on declaration or the launch template's instance type, image, block-device mapping and versioning (`__main__.py:19-35`, `77-117`). They are fixed literals with no logic to prove.
- Whether AWS accepts the scaling configuration is not modelled; the model only states the bounds of the literal.
- UserData.Format: covers `{{`, `}}` and `{name}` fields only. Conversions (`!r`), format specs (`:>10`), positional and attribute or index fields are not modelled, and the Python exception types become `FormatError` values.
- Base64.Decode: a strict partner decoder that accepts only canonical padded text (unused bits zero). It is not Python's lenient `b64decode`, which `generate_userdata` does not call.
- Utf8.Encode: a cluster name holding a lone surrogate, on which the source raises `UnicodeEncodeError`, cannot be expressed with Dafny `char` (a Unicode scalar value), so that error path is not modelled.

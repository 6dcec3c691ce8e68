/** `generate_userdata`: the node bootstrap document, a MIME multipart message whose
    one part runs the EKS bootstrap script for the cluster, rendered with
    `str.format`, UTF-8 encoded, base64 encoded and returned as text. */
module UserData {
  import opened Common
  import Utf8
  import Base64

  /** Why `str.format` raised. */
  datatype FormatError = SingleCloseBrace | UnclosedField | UnknownField(name: string)

  /** The index of the first `c` in `t`, or `|t|` when there is none. */
  function IndexOf(t: string, c: char): (k: nat)
    ensures k <= |t| && c !in t[..k]
    ensures k < |t| ==> t[k] == c
    decreases |t|
  {
    if |t| == 0 then 0
    else if t[0] == c then 0
    else
      var k := IndexOf(t[1..], c) + 1;
      assert t[..k] == [t[0]] + t[1..][..k - 1];
      k
  }

  /** `IndexOf` finds the first occurrence. */
  lemma {:induction false} IndexOfFirst(t: string, c: char, j: nat)
    requires j < |t| && t[j] == c && c !in t[..j]
    ensures IndexOf(t, c) == j
    decreases j
  {
    if j > 0 {
      assert t[0] == t[..j][0];
      assert t[1..][..j - 1] == t[1..j] && t[1..j] == t[..j][1..];
      IndexOfFirst(t[1..], c, j - 1);
    }
  }

  function Prepend(s: string, r: Result<string, FormatError>): (out: Result<string, FormatError>) {
    match r
    case Ok(v) => Ok(s + v)
    case Err(e) => Err(e)
  }

  /** `t.format(field=value)` for a template whose replacement fields carry neither a
      conversion nor a format spec: `{{` and `}}` stand for single braces, `{field}` is
      replaced by `value`, and any other field or a stray brace is an error. The value
      is copied into the output and never scanned for braces itself. */
  function Format(t: string, field: string, value: string): (r: Result<string, FormatError>)
    decreases |t|
  {
    if |t| == 0 then Ok("")
    else if |t| >= 2 && t[0] == '{' && t[1] == '{' then Prepend("{", Format(t[2..], field, value))
    else if |t| >= 2 && t[0] == '}' && t[1] == '}' then Prepend("}", Format(t[2..], field, value))
    else if t[0] == '}' then Err(SingleCloseBrace)
    else if t[0] == '{' then
      var k := IndexOf(t, '}');
      if k == |t| then Err(UnclosedField)
      else if t[1..k] == field then Prepend(value, Format(t[k + 1..], field, value))
      else Err(UnknownField(t[1..k]))
    else Prepend([t[0]], Format(t[1..], field, value))
  }

  /** `s` holds neither `{` nor `}`. */
  predicate BraceFree(s: string) { '{' !in s && '}' !in s }

  /** Text without braces is copied through unchanged. */
  lemma {:induction false} FormatBraceFree(s: string, rest: string, field: string, value: string)
    requires BraceFree(s)
    ensures Format(s + rest, field, value) == Prepend(s, Format(rest, field, value))
    decreases |s|
  {
    if |s| == 0 {
      assert s + rest == rest;
      match Format(rest, field, value)
      case Ok(v) => assert s + v == v;
      case Err(_) =>
    } else {
      var t := s + rest;
      assert s[0] in s;
      assert t[0] == s[0] && t[0] != '{' && t[0] != '}';
      assert t[1..] == s[1..] + rest;
      FormatBraceFree(s[1..], rest, field, value);
      match Format(rest, field, value)
      case Ok(v) => assert [s[0]] + (s[1..] + v) == s + v;
      case Err(_) =>
    }
  }

  const ClusterNameField: string := "cluster_name"

  /** The MIME header of the document and the blank line that ends it. */
  const MimeHeader: string :=
    "MIME-Version: 1.0\n"
    + "Content-Type: multipart/mixed; "
    + "boundary=\"==MYBOUNDARY==\"\n"
    + "\n"

  /** The line that opens the only part. */
  const OpeningBoundary: string := "--==MYBOUNDARY==\n"

  /** The part's header and the first lines of its shell script. */
  const ScriptPrologue: string :=
    "Content-Type: text/x-shellscript; "
    + "charset=\"us-ascii\"\n"
    + "#!/bin/bash\n"
    + "set -ex\n"

  /** The script line that boots the node, with its replacement field. */
  const BootstrapLine: string := "/etc/eks/bootstrap.sh {cluster_name}\n"

  /** The line that closes the multipart message. */
  const ClosingBoundary: string := "--==MYBOUNDARY==--\n"

  /** The template of `generate_userdata`, line by line. */
  const Template: string :=
    MimeHeader + OpeningBoundary + ScriptPrologue + BootstrapLine + "\n" + ClosingBoundary

  const BootstrapCall: string := "/etc/eks/bootstrap.sh "

  const Placeholder: string := "{cluster_name}"

  /** Everything before the replacement field. */
  const Head: string := MimeHeader + OpeningBoundary + ScriptPrologue + BootstrapCall

  /** Everything after the replacement field: the end of the script line, a blank
      line and the closing boundary. */
  const Tail: string := "\n" + "\n" + ClosingBoundary

  lemma Regroup(x: string, b: string, p: string, n: string, c: string)
    ensures x + (b + p + n) + n + c == (x + b) + p + (n + n + c)
  {
  }

  lemma BraceFreeConcat(a: string, b: string)
    requires BraceFree(a) && BraceFree(b)
    ensures BraceFree(a + b)
  {
  }

  lemma MimeHeaderBraceFree()
    ensures BraceFree(MimeHeader)
  {
    var a, b, c := "MIME-Version: 1.0\n", "Content-Type: multipart/mixed; ", "boundary=\"==MYBOUNDARY==\"\n";
    assert BraceFree(a);
    assert BraceFree(b);
    assert BraceFree(c);
    BraceFreeConcat(a, b);
    BraceFreeConcat(a + b, c);
    BraceFreeConcat(a + b + c, "\n");
  }

  lemma ScriptPrologueBraceFree()
    ensures BraceFree(ScriptPrologue)
  {
    var a, b, c, d := "Content-Type: text/x-shellscript; ", "charset=\"us-ascii\"\n", "#!/bin/bash\n", "set -ex\n";
    assert BraceFree(a);
    assert BraceFree(b);
    assert BraceFree(c) && BraceFree(d);
    BraceFreeConcat(a, b);
    BraceFreeConcat(a + b, c);
    BraceFreeConcat(a + b + c, d);
  }

  /** Neither the text before the replacement field nor the text after it holds a
      brace, so `format` copies both unchanged. */
  lemma HeadTailBraceFree()
    ensures BraceFree(Head) && BraceFree(Tail)
  {
    MimeHeaderBraceFree();
    ScriptPrologueBraceFree();
    assert BraceFree(OpeningBoundary) && BraceFree(BootstrapCall);
    BraceFreeConcat(MimeHeader, OpeningBoundary);
    BraceFreeConcat(MimeHeader + OpeningBoundary, ScriptPrologue);
    BraceFreeConcat(MimeHeader + OpeningBoundary + ScriptPrologue, BootstrapCall);
  }

  lemma BootstrapLineSplits()
    ensures BootstrapLine == BootstrapCall + Placeholder + "\n"
  {
  }

  lemma TemplateSplits()
    ensures Template == Head + Placeholder + Tail
  {
    BootstrapLineSplits();
    Regroup(MimeHeader + OpeningBoundary + ScriptPrologue, BootstrapCall, Placeholder, "\n", ClosingBoundary);
  }

  /** The template is the head, the one replacement field and the tail, and neither
      head nor tail holds a brace. */
  lemma TemplateShape()
    ensures Template == Head + Placeholder + Tail
    ensures BraceFree(Head) && BraceFree(Tail)
    ensures Placeholder == "{" + ClusterNameField + "}"
  {
    TemplateSplits();
    HeadTailBraceFree();
  }

  /** In a brace-free head, then a field whose only `{` is its first character, then
      a brace-free tail, the only `{` is where the field starts. */
  lemma OnlyOpeningBrace(h: string, p: string, t: string, i: int)
    requires BraceFree(h) && BraceFree(t) && |p| > 0 && '{' !in p[1..]
    requires 0 <= i < |h + p + t| && (h + p + t)[i] == '{'
    ensures i == |h|
  {
    var s := h + p + t;
    forall j | 0 <= j < |h| ensures s[j] != '{' {
      assert s[j] == h[j] && h[j] in h;
    }
    forall j | |h| < j < |h| + |p| ensures s[j] != '{' {
      assert s[j] == p[1..][j - |h| - 1] && p[1..][j - |h| - 1] in p[1..];
    }
    forall j | |h| + |p| <= j < |s| ensures s[j] != '{' {
      assert s[j] == t[j - |h| - |p|] && t[j - |h| - |p|] in t;
    }
  }

  /** The placeholder occurs in the template once, right after the head. */
  lemma PlaceholderOnce(i: int)
    requires 0 <= i <= |Template| - |Placeholder|
    requires Template[i..i + |Placeholder|] == Placeholder
    ensures i == |Head|
  {
    TemplateShape();
    assert Template[i] == Placeholder[0] == '{';
    OnlyOpeningBrace(Head, Placeholder, Tail, i);
  }

  /** A template that opens with the field `{field}` has it replaced by the value;
      a brace-free remainder is copied after it. */
  lemma FormatField(field: string, tail: string, value: string)
    requires BraceFree(field) && BraceFree(tail)
    ensures Format("{" + field + "}" + tail, field, value) == Ok(value + tail)
  {
    var t := "{" + field + "}" + tail;
    var k := |field| + 1;
    assert t[..k] == "{" + field;
    assert t[k] == '}';
    IndexOfFirst(t, '}', k);
    if |field| > 0 {
      assert t[1] == field[0] && field[0] in field;
    }
    assert t[1..k] == field;
    assert t[k + 1..] == tail;
    FormatBraceFree(tail, "", field, value);
    assert tail + "" == tail;
  }

  /** A template made of brace-free text, the one field `{field}` and brace-free text
      formats to the first text, the value and the second text. */
  lemma FormatShaped(t: string, head: string, p: string, tail: string, field: string, value: string)
    requires t == head + p + tail && p == "{" + field + "}"
    requires BraceFree(head) && BraceFree(field) && BraceFree(tail)
    ensures Format(t, field, value) == Ok(head + value + tail)
  {
    FormatField(field, tail, value);
    assert t == head + ("{" + field + "}" + tail);
    FormatBraceFree(head, "{" + field + "}" + tail, field, value);
    assert head + (value + tail) == head + value + tail;
  }

  /** Formatting the template replaces its one field and keeps everything else. */
  lemma FormatTemplate(clusterName: string)
    ensures Format(Template, ClusterNameField, clusterName) == Ok(Head + clusterName + Tail)
  {
    TemplateShape();
    assert BraceFree(ClusterNameField);
    FormatShaped(Template, Head, Placeholder, Tail, ClusterNameField, clusterName);
  }

  /** `TEMPLATE.format(cluster_name=name)`, which never raises for this template. */
  function Render(clusterName: string): (doc: string)
    ensures Format(Template, ClusterNameField, clusterName) == Ok(doc)
  {
    FormatTemplate(clusterName);
    Format(Template, ClusterNameField, clusterName).value
  }

  /** The name stands verbatim between the head and the tail, even when it holds
      braces, and nothing else of the template changes. */
  lemma RenderSubstitutes(clusterName: string)
    ensures Render(clusterName) == Head + clusterName + Tail
  {
    FormatTemplate(clusterName);
  }

  /** Where each piece of a concatenation `m + o + p + mid + c` sits. */
  lemma Framing(doc: string, m: string, o: string, p: string, mid: string, c: string)
    requires doc == m + o + p + mid + c
    ensures |doc| >= |m| + |o| + |p| + |c|
    ensures m <= doc
    ensures doc[|m|..|m| + |o|] == o
    ensures doc[|m| + |o|..][..|p|] == p
    ensures doc[|doc| - |c|..] == c
  {
    assert doc == m + (o + (p + (mid + c)));
    assert doc[|m|..] == o + (p + (mid + c));
    assert doc[|m| + |o|..] == p + (mid + c);
  }

  lemma MimeHeaderStarts()
    ensures "MIME-Version: 1.0\n" <= MimeHeader
  {
    var a := "MIME-Version: 1.0\n";
    assert MimeHeader == a + ("Content-Type: multipart/mixed; " + "boundary=\"==MYBOUNDARY==\"\n" + "\n");
  }

  lemma RenderPieces(clusterName: string)
    ensures Render(clusterName)
      == MimeHeader + OpeningBoundary + ScriptPrologue + (BootstrapCall + clusterName + "\n\n") + ClosingBoundary
  {
    RenderSubstitutes(clusterName);
    var x := MimeHeader + OpeningBoundary + ScriptPrologue;
    assert Tail == "\n\n" + ClosingBoundary;
    assert (x + BootstrapCall) + clusterName + ("\n\n" + ClosingBoundary)
      == x + (BootstrapCall + clusterName + "\n\n") + ClosingBoundary;
  }

  /** The document opens with its MIME version header, then the opening boundary
      line, then the shell-script part; it ends with the closing boundary line. */
  lemma RenderFraming(clusterName: string)
    ensures var doc := Render(clusterName);
      && |doc| >= |MimeHeader| + |OpeningBoundary| + |ScriptPrologue| + |ClosingBoundary|
      && "MIME-Version: 1.0\n" <= doc
      && doc[|MimeHeader|..|MimeHeader| + |OpeningBoundary|] == "--==MYBOUNDARY==\n"
      && doc[|MimeHeader| + |OpeningBoundary|..][..|ScriptPrologue|] == ScriptPrologue
      && |doc| >= |ClosingBoundary| && doc[|doc| - |ClosingBoundary|..] == "--==MYBOUNDARY==--\n"
  {
    RenderPieces(clusterName);
    Framing(Render(clusterName), MimeHeader, OpeningBoundary, ScriptPrologue,
            BootstrapCall + clusterName + "\n\n", ClosingBoundary);
    MimeHeaderStarts();
  }

  /** Different cluster names render to different documents. */
  lemma RenderInjective(a: string, b: string)
    requires Render(a) == Render(b)
    ensures a == b
  {
    RenderSubstitutes(a);
    RenderSubstitutes(b);
    var da := Render(a);
    assert da[|Head|..|da| - |Tail|] == a;
    assert Render(b)[|Head|..|Render(b)| - |Tail|] == b;
  }

  /** `generate_userdata`: the rendered document's UTF-8 bytes, base64 encoded, read
      back as text. Every character is the ASCII reading of one output byte of the
      encoder, so the text's own UTF-8 bytes are exactly that output. */
  function GenerateUserdata(clusterName: string): (userData: string)
    ensures |userData| == |Base64.Encode(Utf8.Encode(Render(clusterName)))|
    ensures forall i :: 0 <= i < |userData| ==>
      userData[i] as int == Base64.Encode(Utf8.Encode(Render(clusterName)))[i]
    ensures Utf8.Encode(userData) == Base64.Encode(Utf8.Encode(Render(clusterName)))
  {
    var encoded := Base64.Encode(Utf8.Encode(Render(clusterName)));
    Base64.EncodeAscii(Utf8.Encode(Render(clusterName)));
    Utf8.DecodeAscii(encoded);
    Utf8.EncodeDecode(encoded);
    Utf8.Decode(encoded).value
  }

  /** Decoding the user data as base64 gives back the UTF-8 bytes of the rendered
      document. */
  lemma UserdataRoundTrip(clusterName: string)
    ensures Base64.Decode(Utf8.Encode(GenerateUserdata(clusterName)))
      == Some(Utf8.Encode(Render(clusterName)))
    ensures Utf8.Decode(Base64.Decode(Utf8.Encode(GenerateUserdata(clusterName))).value)
      == Some(Render(clusterName))
  {
    Base64.DecodeEncode(Utf8.Encode(Render(clusterName)));
    Utf8.DecodeEncode(Render(clusterName));
  }

  /** Text that reads an encoding byte for byte has the encoding's shape. */
  lemma EncodedTextShape(data: seq<byte>, text: string)
    requires |text| == |Base64.Encode(data)|
    requires forall i :: 0 <= i < |text| ==> text[i] as int == Base64.Encode(data)[i]
    ensures |text| == 4 * ((|data| + 2) / 3)
    ensures forall i :: 0 <= i < |text| ==> (text[i] == '=' <==> i >= |text| - Base64.PadCount(|data|))
    ensures forall i :: 0 <= i < |text| ==> text[i] == '=' || Base64.IsSymbol(text[i] as int)
  {
    var encoded := Base64.Encode(data);
    Base64.EncodeAlphabet(data);
    forall i | 0 <= i < |text|
      ensures (text[i] == '=') == (encoded[i] == Base64.PadByte)
    {
      assert ('=' as int) == 0x3D;
    }
  }

  /** The user data is 4 * ceil(n / 3) characters long for a document of n UTF-8
      bytes; each character is a base64 alphabet symbol except the last
      `PadCount(n)`, which are `=` (at most two). */
  lemma UserdataShape(clusterName: string, n: nat)
    requires n == |Utf8.Encode(Render(clusterName))|
    ensures |GenerateUserdata(clusterName)| == 4 * ((n + 2) / 3)
    ensures Base64.PadCount(n) <= 2
    ensures forall i :: 0 <= i < |GenerateUserdata(clusterName)| ==>
      (GenerateUserdata(clusterName)[i] == '=' <==> i >= |GenerateUserdata(clusterName)| - Base64.PadCount(n))
    ensures forall i :: 0 <= i < |GenerateUserdata(clusterName)| ==>
      GenerateUserdata(clusterName)[i] == '=' || Base64.IsSymbol(GenerateUserdata(clusterName)[i] as int)
  {
    var bytes := Utf8.Encode(Render(clusterName));
    var userData := GenerateUserdata(clusterName);
    assert |userData| == |Base64.Encode(bytes)|;
    EncodedTextShape(bytes, userData);
  }

  /** Different cluster names give different user data. */
  lemma UserdataInjective(a: string, b: string)
    requires GenerateUserdata(a) == GenerateUserdata(b)
    ensures a == b
  {
    UserdataRoundTrip(a);
    UserdataRoundTrip(b);
    Utf8.DecodeEncode(Render(a));
    Utf8.DecodeEncode(Render(b));
    RenderInjective(a, b);
  }
}

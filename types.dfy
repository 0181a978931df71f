/**
 * Shared application types: the lifecycle statuses of an uploaded file (`FILE_STATUS`) and
 * the text of a chat message made of parts (`extractTextFromParts`).
 */
module Types {
  import opened Wrappers
  import opened JsText

  /** `FileStatus`: one of the values of `FILE_STATUS`. */
  datatype FileStatus = Processing | Ready | Error

  /** `FILE_STATUS.PROCESSING`, `FILE_STATUS.READY`, `FILE_STATUS.ERROR`. */
  function StatusValue(s: FileStatus): (v: string)
    ensures v == "processing" <==> s == Processing
    ensures v == "ready" <==> s == Ready
    ensures v == "error" <==> s == Error
  {
    match s
    case Processing => "processing"
    case Ready => "ready"
    case Error => "error"
  }

  /** The keys of `FILE_STATUS` in declaration order. */
  const AllStatuses: seq<FileStatus> := [Processing, Ready, Error]

  /**
   * `FILE_STATUS` has exactly three entries, with the values `processing`, `ready` and
   * `error`, and no two statuses share a value.
   */
  lemma FileStatusValues()
    ensures forall s: FileStatus :: s in AllStatuses
    ensures Map(StatusValue, AllStatuses) == ["processing", "ready", "error"]
    ensures forall a: FileStatus, b: FileStatus :: StatusValue(a) == StatusValue(b) ==> a == b
  {
    forall s: FileStatus ensures s in AllStatuses {
      match s
      case Processing => assert AllStatuses[0] == s;
      case Ready => assert AllStatuses[1] == s;
      case Error => assert AllStatuses[2] == s;
    }
    assert Map(StatusValue, AllStatuses) == ["processing", "ready", "error"];
  }

  /** `MessagePart`: a `type` tag and an optional `text`. */
  datatype MessagePart = MessagePart(partType: string, text: Option<string>)

  predicate IsTextPart(p: MessagePart) {
    p.partType == "text"
  }

  /** `part.text || ""`: a missing text reads as the empty string. */
  function PartText(p: MessagePart): (t: string)
    ensures p.text.None? ==> t == ""
    ensures p.text.Some? ==> t == p.text.value
  {
    p.text.GetOr("")
  }

  /** The texts of the parts of type `text`, in their order. */
  function TextPartTexts(parts: seq<MessagePart>): (texts: seq<string>)
    ensures |texts| == |Filter(IsTextPart, parts)|
  {
    Map(PartText, Filter(IsTextPart, parts))
  }

  /**
   * `extractTextFromParts(parts)`: the texts of the `text` parts, in order, each separated
   * from the next by one space.
   */
  function ExtractTextFromParts(parts: seq<MessagePart>): (r: string)
    ensures |Filter(IsTextPart, parts)| == 0 ==> r == ""
    ensures |Filter(IsTextPart, parts)| == 1 ==> r == PartText(Filter(IsTextPart, parts)[0])
  {
    Join(TextPartTexts(parts), " ")
  }

  /** Without any `text` part the result is the empty string. */
  lemma ExtractWithoutTextParts(parts: seq<MessagePart>)
    requires forall i :: 0 <= i < |parts| ==> !IsTextPart(parts[i])
    ensures ExtractTextFromParts(parts) == ""
  {
    FilterEmpty(IsTextPart, parts);
  }

  /** A part that is not of type `text`, wherever it stands, has no effect on the result. */
  lemma ExtractIgnoresOtherParts(parts: seq<MessagePart>, i: nat, p: MessagePart)
    requires i <= |parts| && !IsTextPart(p)
    ensures ExtractTextFromParts(parts[..i] + [p] + parts[i..]) == ExtractTextFromParts(parts)
  {
    var a, b := parts[..i], parts[i..];
    assert Filter(IsTextPart, [p]) == [] by {
      assert [p][..0] == [];
    }
    FilterConcat(IsTextPart, a, [p]);
    assert Filter(IsTextPart, a + [p]) == Filter(IsTextPart, a);
    FilterConcat(IsTextPart, a + [p], b);
    FilterConcat(IsTextPart, a, b);
    assert a + b == parts;
    assert Filter(IsTextPart, parts[..i] + [p] + parts[i..]) == Filter(IsTextPart, parts);
  }

  /** A `text` part added at the end adds its text at the end of the list of texts. */
  lemma TextPartTextsSnoc(parts: seq<MessagePart>, p: MessagePart)
    requires IsTextPart(p)
    ensures TextPartTexts(parts + [p]) == TextPartTexts(parts) + [PartText(p)]
  {
    assert (parts + [p])[..|parts|] == parts;
    assert Filter(IsTextPart, parts + [p]) == Filter(IsTextPart, parts) + [p];
    MapConcat(PartText, Filter(IsTextPart, parts), [p]);
  }

  /**
   * A `text` part added at the end contributes its text, preceded by one space when an
   * earlier `text` part exists: a lone `text` part yields its text unchanged, and a part
   * whose text is missing still adds a separator.
   */
  lemma ExtractAppendText(parts: seq<MessagePart>, p: MessagePart)
    requires IsTextPart(p)
    ensures ExtractTextFromParts(parts + [p])
         == if |Filter(IsTextPart, parts)| == 0 then PartText(p)
            else ExtractTextFromParts(parts) + " " + PartText(p)
  {
    var texts := TextPartTexts(parts);
    TextPartTextsSnoc(parts, p);
    if |texts| > 0 {
      JoinSnoc(texts, PartText(p), " ");
    } else {
      assert texts + [PartText(p)] == [PartText(p)];
    }
  }

  /** A `text` part without text, after another `text` part, adds just the separating space. */
  lemma ExtractMissingTextCounts(parts: seq<MessagePart>)
    requires |Filter(IsTextPart, parts)| > 0
    ensures ExtractTextFromParts(parts + [MessagePart("text", None)]) == ExtractTextFromParts(parts) + " "
  {
    ExtractAppendText(parts, MessagePart("text", None));
  }

  /** The sum of the lengths of the texts of the `text` parts. */
  function TextLength(parts: seq<MessagePart>): nat {
    TotalLength(TextPartTexts(parts))
  }

  /** For k > 0 `text` parts the result's length is the texts' total length plus k - 1. */
  lemma ExtractLength(parts: seq<MessagePart>)
    ensures var k := |Filter(IsTextPart, parts)|;
      |ExtractTextFromParts(parts)| == TextLength(parts) + (if k == 0 then 0 else k - 1)
  {
    JoinLength(TextPartTexts(parts), " ");
  }
}

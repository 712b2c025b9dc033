/** The admin list column `message_preview` of contact messages. */
module Admin {

  /** Characters shown before the message is cut. */
  const PreviewLength := 50
  /** Appended to a cut message. */
  const Ellipsis := "..."

  /** `message_preview`: a message of at most 50 characters as it is,
      a longer one cut to its first 50 characters followed by "...". */
  function MessagePreview(message: string): (p: string)
    ensures |message| <= PreviewLength ==> p == message
    ensures |message| > PreviewLength ==> |p| == PreviewLength + |Ellipsis|
    ensures |message| > PreviewLength ==> p[PreviewLength..] == Ellipsis
    ensures |p| <= PreviewLength + |Ellipsis|
    ensures |p| == |message| || |p| == PreviewLength + |Ellipsis|
    ensures var n := if |message| < PreviewLength then |message| else PreviewLength;
      |p| >= n && p[..n] == message[..n]
  {
    if |message| > PreviewLength then message[..PreviewLength] + Ellipsis else message
  }

  /** Previewing a preview changes nothing: a cut preview is 53 characters
      long and cuts back to itself. */
  lemma PreviewIdempotent(message: string)
    ensures MessagePreview(MessagePreview(message)) == MessagePreview(message)
  {
    var p := MessagePreview(message);
    if |message| > PreviewLength {
      assert p[..PreviewLength] == message[..PreviewLength];
    }
  }

  /** Equal previews come from equal short messages, or from long messages
      sharing their first 50 characters. */
  lemma EqualPreviews(a: string, b: string)
    requires MessagePreview(a) == MessagePreview(b)
    ensures |a| <= PreviewLength <==> |b| <= PreviewLength
    ensures |a| <= PreviewLength ==> a == b
    ensures |a| > PreviewLength ==> a[..PreviewLength] == b[..PreviewLength]
  {
    var p := MessagePreview(a);
    if |a| > PreviewLength && |b| > PreviewLength {
      assert p[..PreviewLength] == a[..PreviewLength];
      assert p[..PreviewLength] == b[..PreviewLength];
    }
  }
}

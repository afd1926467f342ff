/**
 * The reply interpretation of `checkUserAnswer`: the language model's reply
 * is trimmed of JavaScript white space and line terminators, lower-cased, and
 * compared with "yes"; a failed call counts as a wrong answer.
 */
module Verdict {

  /** What the answer-checking call produced: the reply's text, or a thrown
      error (including a reply without a first choice). */
  datatype Reply = Answered(content: string) | CallFailed

  /** The characters `String.prototype.trim` removes: the white space and line
      terminator code points of section 12.2 and 12.3 of ECMA-262. */
  predicate IsTrimmable(c: char)
  {
    || c == '\t' || c == '\n' || c == '\U{000B}' || c == '\U{000C}' || c == '\r' || c == ' '
    || c == '\U{00A0}' || c == '\U{1680}' || ('\U{2000}' <= c <= '\U{200A}')
    || c == '\U{2028}' || c == '\U{2029}' || c == '\U{202F}' || c == '\U{205F}'
    || c == '\U{3000}' || c == '\U{FEFF}'
  }

  /** Every character of `s` is trimmable. */
  predicate AllTrimmable(s: string)
  {
    forall k :: 0 <= k < |s| ==> IsTrimmable(s[k])
  }

  /** `s` starts and ends with a character that trim keeps (or is empty). */
  predicate TrimmedEdges(s: string)
  {
    |s| > 0 ==> !IsTrimmable(s[0]) && !IsTrimmable(s[|s| - 1])
  }

  function TrimStart(s: string): (t: string)
    ensures |t| <= |s| && t == s[|s| - |t|..]
    ensures AllTrimmable(s[..|s| - |t|])
    ensures |t| > 0 ==> !IsTrimmable(t[0])
  {
    if |s| > 0 && IsTrimmable(s[0]) then TrimStart(s[1..]) else s
  }

  function TrimEnd(s: string): (t: string)
    ensures |t| <= |s| && t == s[..|t|]
    ensures AllTrimmable(s[|t|..])
    ensures |t| > 0 ==> !IsTrimmable(t[|t| - 1])
  {
    if |s| > 0 && IsTrimmable(s[|s| - 1]) then TrimEnd(s[..|s| - 1]) else s
  }

  /** `String.prototype.trim`. */
  function Trim(s: string): (t: string)
    ensures |t| <= |s| && TrimmedEdges(t)
  {
    TrimEnd(TrimStart(s))
  }

  /** `toLowerCase` on one character, for the ASCII range. */
  function LowerChar(c: char): (d: char)
    ensures 'A' <= c <= 'Z' ==> d as int == c as int + 32
    ensures !('A' <= c <= 'Z') ==> d == c
  {
    if 'A' <= c <= 'Z' then (c as int + 32) as char else c
  }

  function ToLower(s: string): (t: string)
    ensures |t| == |s|
    ensures forall k :: 0 <= k < |s| ==> t[k] == LowerChar(s[k])
  {
    seq(|s|, k requires 0 <= k < |s| => LowerChar(s[k]))
  }

  /** `checkUserAnswer`'s result. */
  function CheckUserAnswer(reply: Reply): (correct: bool)
    ensures correct ==> reply.Answered? && |Trim(reply.content)| == 3
  {
    reply.Answered? && ToLower(Trim(reply.content)) == "yes"
  }

  /** "yes" in any mix of upper and lower case. */
  predicate IsYesWord(t: string)
  {
    && |t| == 3
    && (t[0] == 'y' || t[0] == 'Y')
    && (t[1] == 'e' || t[1] == 'E')
    && (t[2] == 's' || t[2] == 'S')
  }

  /** Trim removes exactly the trimmable characters at both ends: it returns a
      slice of its input whose ends are kept characters, with only trimmable
      characters before and after it. */
  lemma TrimIsSlice(s: string)
    ensures TrimmedEdges(Trim(s))
    ensures exists i, j :: 0 <= i <= j <= |s| && Trim(s) == s[i..j]
                           && AllTrimmable(s[..i]) && AllTrimmable(s[j..])
  {
    var u := TrimStart(s);
    var t := TrimEnd(u);
    var i := |s| - |u|;
    var j := i + |t|;
    assert u[..|t|] == s[i..j];
    assert s[j..] == u[|t|..];
  }

  lemma {:induction false} TrimStartOfPadded(pre: string, t: string)
    requires AllTrimmable(pre)
    requires |t| > 0 ==> !IsTrimmable(t[0])
    ensures TrimStart(pre + t) == t
    decreases |pre|
  {
    if |pre| > 0 {
      assert (pre + t)[1..] == pre[1..] + t;
      TrimStartOfPadded(pre[1..], t);
    } else {
      assert pre + t == t;
    }
  }

  lemma {:induction false} TrimEndOfPadded(t: string, post: string)
    requires AllTrimmable(post)
    requires |t| > 0 ==> !IsTrimmable(t[|t| - 1])
    ensures TrimEnd(t + post) == t
    decreases |post|
  {
    if |post| > 0 {
      assert (t + post)[..|t + post| - 1] == t + post[..|post| - 1];
      TrimEndOfPadded(t, post[..|post| - 1]);
    } else {
      assert t + post == t;
    }
  }

  /** Trimming a kept core padded with trimmable characters on both sides gives
      back the core. */
  lemma TrimPadded(pre: string, t: string, post: string)
    requires AllTrimmable(pre) && AllTrimmable(post) && TrimmedEdges(t)
    ensures Trim(pre + t + post) == t
  {
    assert pre + t + post == pre + (t + post);
    if |t| > 0 {
      assert (t + post)[0] == t[0];
    } else {
      assert t + post == post;
      assert TrimStart(post) == [] by {
        TrimOfTrimmable(post);
      }
    }
    if |t| > 0 {
      TrimStartOfPadded(pre, t + post);
    } else {
      TrimStartOfPadded(pre + post, []);
      assert pre + post + [] == pre + (t + post);
    }
    TrimEndOfPadded(t, post);
  }

  lemma {:induction false} TrimOfTrimmable(s: string)
    requires AllTrimmable(s)
    ensures TrimStart(s) == []
    decreases |s|
  {
    if |s| > 0 {
      TrimOfTrimmable(s[1..]);
    }
  }

  /** The verdict is true exactly for a reply that, once trimmed, reads "yes"
      in any case; a failed call is never a correct answer. */
  lemma VerdictIsYes(reply: Reply)
    ensures !reply.Answered? ==> !CheckUserAnswer(reply)
    ensures reply.Answered? ==> (CheckUserAnswer(reply) <==> IsYesWord(Trim(reply.content)))
  {
    if reply.Answered? {
      LowerIsYes(Trim(reply.content));
    }
  }

  /** Lower-casing gives "yes" exactly for "yes" in some letter case. */
  lemma LowerIsYes(t: string)
    ensures ToLower(t) == "yes" <==> IsYesWord(t)
  {
    if IsYesWord(t) {
      assert ToLower(t) == "yes";
    }
    if ToLower(t) == "yes" {
      assert ToLower(t)[0] == 'y' && ToLower(t)[1] == 'e' && ToLower(t)[2] == 's';
    }
  }

  /** The reply "Yes" surrounded by white space or line terminators is a correct
      answer, in any letter case. */
  lemma PaddedYesAccepted(pre: string, word: string, post: string)
    requires AllTrimmable(pre) && AllTrimmable(post) && IsYesWord(word)
    ensures CheckUserAnswer(Answered(pre + word + post))
  {
    TrimPadded(pre, word, post);
    VerdictIsYes(Answered(pre + word + post));
  }

  /** A reply with no white space at its ends is correct only when it is
      "yes" in some letter case: "Yes." or "yes, close" are wrong answers. */
  lemma UnpaddedReply(content: string)
    requires TrimmedEdges(content)
    ensures CheckUserAnswer(Answered(content)) <==> IsYesWord(content)
  {
    assert TrimStart(content) == content;
    assert TrimEnd(content) == content;
    VerdictIsYes(Answered(content));
  }

  /** A padded "Yes" is a correct answer. */
  lemma PaddedYesExample()
    ensures CheckUserAnswer(Answered(" Yes\n"))
  {
    var pre, post := " ", "\n";
    assert AllTrimmable(pre) && AllTrimmable(post);
    PaddedYesAccepted(pre, "Yes", post);
    assert pre + "Yes" + post == " Yes\n";
  }

  /** "No" and "Yes." are wrong answers. */
  lemma RejectedExamples()
    ensures !CheckUserAnswer(Answered("No"))
    ensures !CheckUserAnswer(Answered("Yes."))
  {
    UnpaddedReply("No");
    UnpaddedReply("Yes.");
  }
}

/**
 * The public-key classifier of the key upload card: a text is accepted when, once
 * trimmed, it carries no private-key or certificate marker and holds either a PEM
 * public-key block or an OpenSSH public-key line.
 *
 * The two regular expressions of the classifier are stated as the existence of a
 * match: `PemMatchAt` and `SshMatchAt` name the positions a successful regular
 * expression search would report, so `PemPattern` and `SshPattern` hold exactly
 * when the search succeeds.
 */
module PublicKeyUploader {
  import opened Text

  const PrivateKeyMarker := "PRIVATE KEY"
  const CertificateMarker := "BEGIN CERTIFICATE"

  /** A literal, case-sensitive, unanchored occurrence of either rejection marker. */
  predicate HasRejectionMarker(s: string) {
    Contains(s, PrivateKeyMarker) || Contains(s, CertificateMarker)
  }

  /** `-----BEGIN ` with an optional `RSA ` or `EC `, then `PUBLIC KEY-----`. */
  const BeginMarkers: seq<string> :=
    ["-----BEGIN PUBLIC KEY-----", "-----BEGIN RSA PUBLIC KEY-----", "-----BEGIN EC PUBLIC KEY-----"]

  /** `-----END ` with an optional `RSA ` or `EC `, then `PUBLIC KEY-----`. */
  const EndMarkers: seq<string> :=
    ["-----END PUBLIC KEY-----", "-----END RSA PUBLIC KEY-----", "-----END EC PUBLIC KEY-----"]

  /** The text every PEM marker ends with. */
  const PublicKeyTail := "PUBLIC KEY-----"

  /** The algorithm names an OpenSSH key line may start with. */
  const SshAlgorithms: seq<string> := ["ssh-rsa", "ssh-ed25519", "ecdsa-sha2-nistp256"]

  /** The class `[A-Za-z0-9+/=]`. */
  predicate IsBase64Char(c: char) {
    ('A' <= c <= 'Z') || ('a' <= c <= 'z') || ('0' <= c <= '9') || c == '+' || c == '/' || c == '='
  }

  predicate AllBase64(s: string) {
    forall k | 0 <= k < |s| :: IsBase64Char(s[k])
  }

  /** The characters that end a line for `^`, `$` and `.` in a multi-line regular expression. */
  predicate IsLineTerminator(c: char) {
    c == '\n' || c == '\r'
  }

  predicate NoLineTerminator(s: string) {
    forall k | 0 <= k < |s| :: !IsLineTerminator(s[k])
  }

  /** `^` in multi-line mode: the start of the text or just after a line terminator. */
  predicate LineStart(s: string, p: int)
    requires 0 <= p <= |s|
  {
    p == 0 || IsLineTerminator(s[p - 1])
  }

  /** `$` in multi-line mode: the end of the text or just before a line terminator. */
  predicate LineEnd(s: string, v: int)
    requires 0 <= v <= |s|
  {
    v == |s| || IsLineTerminator(s[v])
  }

  /**
   * `-----BEGIN …PUBLIC KEY-----[\s\S]+?-----END …PUBLIC KEY-----` matches `s[i..l]`:
   * the begin marker is `s[i..k]`, at least one character of any kind follows it,
   * and the end marker is `s[j..l]`. The two optional prefixes are independent.
   */
  predicate PemMatchAt(s: string, i: int, k: int, j: int, l: int) {
    0 <= i <= k < j <= l <= |s| && s[i..k] in BeginMarkers && s[j..l] in EndMarkers
  }

  predicate PemPattern(s: string) {
    exists i, k, j, l | 0 <= i <= k < j <= l <= |s| :: PemMatchAt(s, i, k, j, l)
  }

  /** The optional `\s+.+` before `$`: blanks `s[r..u]`, then a comment `s[u..v]` up to the end of a line. */
  predicate CommentAt(s: string, r: int, u: int, v: int) {
    0 <= r < u < v <= |s| && AllSpace(s[r..u]) && NoLineTerminator(s[u..v]) && LineEnd(s, v)
  }

  /** What may follow the key: the end of the line, or blanks and a comment and then the end of a line. */
  predicate KeyLineTail(s: string, r: int)
    requires 0 <= r <= |s|
  {
    LineEnd(s, r) || exists u, v | r < u < v <= |s| :: CommentAt(s, r, u, v)
  }

  /**
   * `^(ssh-(rsa|ed25519)|ecdsa-sha2-nistp256)\s+[A-Za-z0-9+/=]+(?:\s+.+)?$` in multi-line
   * mode matches from `p`: the algorithm is `s[p..a]`, the blanks `s[a..q]` and the key `s[q..r]`.
   */
  predicate SshMatchAt(s: string, p: int, a: int, q: int, r: int) {
    0 <= p < a < q < r <= |s|
    && LineStart(s, p) && s[p..a] in SshAlgorithms
    && AllSpace(s[a..q]) && AllBase64(s[q..r]) && KeyLineTail(s, r)
  }

  predicate SshPattern(s: string) {
    exists p, a, q, r | 0 <= p < a < q < r <= |s| :: SshMatchAt(s, p, a, q, r)
  }

  /**
   * `validateKey`: trim, refuse the rejection markers, then accept a PEM block or an
   * SSH key line. ValidateKeyMeaning below gives the converse of these postconditions,
   * in terms of the untrimmed text.
   */
  function ValidateKey(text: string): (ok: bool)
    ensures ok ==> !HasRejectionMarker(Trim(text))
    ensures ok ==> PemPattern(Trim(text)) || SshPattern(Trim(text))
  {
    var trimmed := Trim(text);
    if HasRejectionMarker(trimmed) then false
    else PemPattern(trimmed) || SshPattern(trimmed)
  }

  // ---------------------------------------------------------------------------
  // Trimming and the patterns
  // ---------------------------------------------------------------------------

  /** The part `y` of a text that starts with `x + y`. */
  lemma Piece(s: string, x: string, y: string)
    requires |x| + |y| <= |s| && s[..|x| + |y|] == x + y
    ensures s[|x|..|x| + |y|] == y
  {
    assert s[|x|..|x| + |y|] == s[..|x| + |y|][|x|..];
  }

  /** A slice of the trimmed text `s[i0..j0]` is the same slice of `s`, shifted. */
  lemma SliceInTrim(s: string, i0: int, j0: int, x: int, y: int)
    requires 0 <= i0 <= x <= y <= j0 <= |s|
    ensures s[i0..j0][x - i0..y - i0] == s[x..y]
  {
    SliceOfSlice(s, i0, j0, x - i0, y - i0);
  }

  /** Trimming keeps the rejection markers: they neither start nor end with a blank. */
  lemma RejectionMarkerInTrim(s: string)
    ensures HasRejectionMarker(Trim(s)) <==> HasRejectionMarker(s)
  {
    ContainsTrim(s, PrivateKeyMarker);
    ContainsTrim(s, CertificateMarker);
  }

  /** A PEM block found in the trimmed text is found in the text. */
  lemma PemFromTrim(s: string)
    ensures PemPattern(Trim(s)) ==> PemPattern(s)
  {
    var i0, j0 := TrimSpan(s);
    var t := Trim(s);
    if PemPattern(t) {
      var i, k, j, l :| 0 <= i <= k < j <= l <= |t| && PemMatchAt(t, i, k, j, l);
      SliceOfSlice(s, i0, j0, i, k);
      SliceOfSlice(s, i0, j0, j, l);
      assert PemMatchAt(s, i0 + i, i0 + k, i0 + j, i0 + l);
    }
  }

  /** A PEM match starts and ends with a `-`. */
  lemma PemMatchEnds(s: string, i: int, k: int, j: int, l: int)
    requires PemMatchAt(s, i, k, j, l)
    ensures s[i] == '-' && s[l - 1] == '-'
  {
    assert s[i] == s[i..k][0];
    assert s[l - 1] == s[j..l][l - 1 - j];
  }

  /** A PEM match lying inside the span `s[i0..j0]` is a match of that span. */
  lemma PemMatchInSpan(s: string, i0: int, j0: int, i: int, k: int, j: int, l: int)
    requires PemMatchAt(s, i, k, j, l)
    requires 0 <= i0 <= i && l <= j0 <= |s|
    ensures PemMatchAt(s[i0..j0], i - i0, k - i0, j - i0, l - i0)
  {
    SliceInTrim(s, i0, j0, i, k);
    SliceInTrim(s, i0, j0, j, l);
  }

  /** A PEM block found in the text survives trimming: its markers start and end with `-`. */
  lemma PemIntoTrim(s: string)
    ensures PemPattern(s) ==> PemPattern(Trim(s))
  {
    if PemPattern(s) {
      var i0, j0 := TrimSpan(s);
      var i, k, j, l :| 0 <= i <= k < j <= l <= |s| && PemMatchAt(s, i, k, j, l);
      PemMatchEnds(s, i, k, j, l);
      SpanInsideTrim(s, i0, j0, i, l);
      PemMatchInSpan(s, i0, j0, i, k, j, l);
    }
  }

  /** A PEM block is found in the trimmed text exactly when it is found in the text. */
  lemma PemInTrim(s: string)
    ensures PemPattern(Trim(s)) <==> PemPattern(s)
  {
    PemFromTrim(s);
    PemIntoTrim(s);
  }

  /** No blank lies in a run of blanks that ends before the last non-blank character at `j0 - 1`. */
  lemma BlanksBeforeLastNonBlank(s: string, r: int, u: int, j0: int)
    requires 0 <= r <= u <= |s| && r < j0 <= |s|
    requires AllSpace(s[r..u]) && !IsSpace(s[j0 - 1])
    ensures u < j0
  {
    forall k | r <= k < u ensures IsSpace(s[k]) {
      assert s[r..u][k - r] == s[k];
    }
  }

  /** What follows a key in `s` is still a valid ending once `s` is cut down to its trimmed span. */
  lemma KeyLineTailInTrim(s: string, i0: int, j0: int, r: int)
    requires 0 <= i0 < r <= j0 <= |s|
    requires AllSpace(s[j0..]) && !IsSpace(s[j0 - 1])
    requires KeyLineTail(s, r)
    ensures KeyLineTail(s[i0..j0], r - i0)
  {
    var t := s[i0..j0];
    if r == j0 {
      assert LineEnd(t, r - i0);
    } else if LineEnd(s, r) {
      assert t[r - i0] == s[r];
    } else {
      var u, v :| r < u < v <= |s| && CommentAt(s, r, u, v);
      BlanksBeforeLastNonBlank(s, r, u, j0);
      var w := if v <= j0 then v else j0;
      SliceInTrim(s, i0, j0, r, u);
      SliceInTrim(s, i0, j0, u, w);
      assert NoLineTerminator(s[u..w]) by {
        forall k | 0 <= k < w - u ensures !IsLineTerminator(s[u..w][k]) {
          assert s[u..w][k] == s[u..v][k];
        }
      }
      if w < j0 {
        assert t[w - i0] == s[v];
      }
      assert CommentAt(t, r - i0, u - i0, w - i0);
    }
  }

  /** An SSH match starts with a letter of its algorithm and ends with a character of its key. */
  lemma SshMatchEnds(s: string, p: int, a: int, q: int, r: int)
    requires SshMatchAt(s, p, a, q, r)
    ensures !IsSpace(s[p]) && !IsSpace(s[r - 1])
  {
    assert s[p] == s[p..a][0];
    assert s[r - 1] == s[q..r][r - 1 - q];
  }

  /** An SSH match lying inside the span `s[i0..j0]`, after which only blanks follow, is a match of that span. */
  lemma SshMatchInSpan(s: string, i0: int, j0: int, p: int, a: int, q: int, r: int)
    requires SshMatchAt(s, p, a, q, r)
    requires 0 <= i0 <= p && r <= j0 <= |s|
    requires AllSpace(s[j0..]) && !IsSpace(s[j0 - 1])
    ensures SshMatchAt(s[i0..j0], p - i0, a - i0, q - i0, r - i0)
  {
    var t := s[i0..j0];
    SliceInTrim(s, i0, j0, p, a);
    SliceInTrim(s, i0, j0, a, q);
    SliceInTrim(s, i0, j0, q, r);
    if p > i0 {
      assert t[p - i0 - 1] == s[p - 1];
    }
    KeyLineTailInTrim(s, i0, j0, r);
  }

  /** An SSH key line in the text is still an SSH key line once the text is trimmed. */
  lemma SshSurvivesTrim(s: string)
    ensures SshPattern(s) ==> SshPattern(Trim(s))
  {
    if SshPattern(s) {
      var p, a, q, r :| 0 <= p < a < q < r <= |s| && SshMatchAt(s, p, a, q, r);
      var i0, j0 := TrimSpan(s);
      SshMatchEnds(s, p, a, q, r);
      SpanInsideTrim(s, i0, j0, p, r);
      SshMatchInSpan(s, i0, j0, p, a, q, r);
    }
  }

  // ---------------------------------------------------------------------------
  // What the classifier accepts and rejects
  // ---------------------------------------------------------------------------

  /** The classifier only looks at the trimmed text. */
  lemma ValidateKeyDependsOnTrim(text: string)
    ensures ValidateKey(Trim(text)) == ValidateKey(text)
  {
    TrimIdempotent(text);
  }

  /**
   * Accepted means: no rejection marker anywhere in the text, and a PEM block anywhere in the
   * text or an SSH key line in the trimmed text.
   */
  lemma ValidateKeyMeaning(text: string)
    ensures ValidateKey(text) <==>
      !HasRejectionMarker(text) && (PemPattern(text) || SshPattern(Trim(text)))
  {
    RejectionMarkerInTrim(text);
    PemInTrim(text);
  }

  /** A private-key or certificate marker anywhere in the text rejects it, whatever else it holds. */
  lemma RejectionMarkerWins(text: string)
    requires HasRejectionMarker(text)
    ensures !ValidateKey(text)
  {
    RejectionMarkerInTrim(text);
  }

  /** Without a rejection marker, a PEM block or an SSH key line anywhere in the text is accepted. */
  lemma PatternAccepted(text: string)
    requires !HasRejectionMarker(text)
    requires PemPattern(text) || SshPattern(text)
    ensures ValidateKey(text)
  {
    ValidateKeyMeaning(text);
    SshSurvivesTrim(text);
  }

  /**
   * A PEM public-key block with non-empty content is accepted when the text carries no
   * rejection marker; the begin and end markers are chosen independently.
   */
  lemma PemBlockAccepted(pre: string, begin: string, body: string, end: string, post: string)
    requires begin in BeginMarkers && end in EndMarkers && body != []
    requires !HasRejectionMarker(pre + begin + body + end + post)
    ensures ValidateKey(pre + begin + body + end + post)
  {
    var s := pre + begin + body + end + post;
    var k := |pre| + |begin|;
    var j := k + |body|;
    assert s[|pre|..k] == begin;
    assert s[j..j + |end|] == end;
    assert PemMatchAt(s, |pre|, k, j, j + |end|);
    PatternAccepted(s);
  }

  /** Whether `line` is an OpenSSH key line: algorithm, blanks, key, and optionally blanks and a comment. */
  predicate IsKeyLine(alg: string, gap: string, key: string, blanks: string, comment: string) {
    alg in SshAlgorithms
    && gap != [] && AllSpace(gap)
    && key != [] && AllBase64(key)
    && ((blanks == [] && comment == []) ||
        (blanks != [] && AllSpace(blanks) && comment != [] && NoLineTerminator(comment)))
  }

  /** Where the parts of a key line sit in a text made of them. */
  lemma KeyLinePieces(s: string, pre: string, alg: string, gap: string, key: string,
                      blanks: string, comment: string, post: string)
    requires s == pre + alg + gap + key + blanks + comment + post
    ensures var a := |pre| + |alg|;
      var q := a + |gap|;
      var r := q + |key|;
      var u := r + |blanks|;
      var v := u + |comment|;
      v <= |s|
      && s[|pre|..a] == alg && s[a..q] == gap && s[q..r] == key && s[r..u] == blanks && s[u..v] == comment
      && (|pre| > 0 ==> s[|pre| - 1] == pre[|pre| - 1])
      && (v < |s| ==> s[v] == post[0])
  {
    var upToAlg := pre + alg;
    var upToGap := upToAlg + gap;
    var upToKey := upToGap + key;
    var upToBlanks := upToKey + blanks;
    var line := upToBlanks + comment;
    assert s[..|line|] == line;
    assert s[..|upToBlanks|] == upToBlanks;
    assert s[..|upToKey|] == upToKey;
    assert s[..|upToGap|] == upToGap;
    assert s[..|upToAlg|] == upToAlg;
    Piece(s, pre, alg);
    Piece(s, upToAlg, gap);
    Piece(s, upToGap, key);
    Piece(s, upToKey, blanks);
    Piece(s, upToBlanks, comment);
  }

  /** The parts of a key line, found at consecutive positions of a line, make an SSH match. */
  lemma SshMatchOfPieces(s: string, p: nat, a: nat, q: nat, r: nat, u: nat, v: nat)
    requires p <= a <= q <= r <= u <= v <= |s|
    requires IsKeyLine(s[p..a], s[a..q], s[q..r], s[r..u], s[u..v])
    requires LineStart(s, p) && LineEnd(s, v)
    ensures SshMatchAt(s, p, a, q, r)
  {
    if u > r {
      assert CommentAt(s, r, u, v);
    }
  }

  /** An OpenSSH key line on a line of its own matches the SSH pattern. */
  lemma SshKeyLineMatches(pre: string, alg: string, gap: string, key: string,
                          blanks: string, comment: string, post: string)
    requires pre == [] || IsLineTerminator(pre[|pre| - 1])
    requires IsKeyLine(alg, gap, key, blanks, comment)
    requires post == [] || IsLineTerminator(post[0])
    ensures SshPattern(pre + alg + gap + key + blanks + comment + post)
  {
    var s := pre + alg + gap + key + blanks + comment + post;
    KeyLinePieces(s, pre, alg, gap, key, blanks, comment, post);
    var p := |pre|;
    var a := p + |alg|;
    var q := a + |gap|;
    var r := q + |key|;
    var u := r + |blanks|;
    var v := u + |comment|;
    SshMatchOfPieces(s, p, a, q, r, u, v);
  }

  /**
   * An OpenSSH key line, with or without a comment, on a line of its own is accepted when
   * the text carries no rejection marker.
   */
  lemma SshKeyLineAccepted(text: string, pre: string, alg: string, gap: string, key: string,
                           blanks: string, comment: string, post: string)
    requires text == pre + alg + gap + key + blanks + comment + post
    requires pre == [] || IsLineTerminator(pre[|pre| - 1])
    requires IsKeyLine(alg, gap, key, blanks, comment)
    requires post == [] || IsLineTerminator(post[0])
    requires !HasRejectionMarker(text)
    ensures ValidateKey(text)
  {
    SshKeyLineMatches(pre, alg, gap, key, blanks, comment, post);
    PatternAccepted(text);
  }

  /** A text lacking one of the characters of `t` does not contain `t`. */
  lemma MissingCharNotContained(s: string, t: string, m: int)
    requires 0 <= m < |t| && t[m] !in s
    ensures !Contains(s, t)
  {
    forall i | 0 <= i <= |s| - |t| ensures !OccursAt(s, t, i) {
      assert s[i..i + |t|][m] == s[i + m];
    }
  }

  /** A text without a `V` and without a `G` holds neither rejection marker. */
  lemma NoVOrGNoMarker(s: string)
    requires 'V' !in s && 'G' !in s
    ensures !HasRejectionMarker(s)
  {
    MissingCharNotContained(s, PrivateKeyMarker, 3);
    MissingCharNotContained(s, CertificateMarker, 2);
  }

  /** The key of the Ed25519 examples. */
  const Ed25519Key := "AAAA"

  /** A bare Ed25519 key line is accepted. */
  lemma Ed25519KeyAccepted()
    ensures ValidateKey("ssh-ed25519 AAAA")
  {
    var text := "ssh-ed25519 AAAA";
    assert AllBase64(Ed25519Key);
    assert [] + "ssh-ed25519" + " " + Ed25519Key + [] + [] + [] == text;
    NoVOrGNoMarker(text);
    SshKeyLineAccepted(text, [], "ssh-ed25519", " ", Ed25519Key, [], [], []);
  }

  /** The same Ed25519 key line followed by a comment is accepted too. */
  lemma Ed25519KeyWithCommentAccepted()
    ensures ValidateKey("ssh-ed25519 AAAA me")
  {
    var text := "ssh-ed25519 AAAA me";
    assert AllBase64(Ed25519Key);
    assert [] + "ssh-ed25519" + " " + Ed25519Key + " " + "me" + [] == text;
    NoVOrGNoMarker(text);
    SshKeyLineAccepted(text, [], "ssh-ed25519", " ", Ed25519Key, " ", "me", []);
  }

  /** A text made only of blanks, the empty text included, is rejected. */
  lemma BlankRejected(text: string)
    requires AllSpace(text)
    ensures !ValidateKey(text)
  {
    TrimEmptyIff(text);
  }

  /** Every begin marker ends with `PUBLIC KEY-----`. */
  lemma BeginMarkerTail(b: string)
    requires b in BeginMarkers
    ensures |b| >= |PublicKeyTail| && b[|b| - |PublicKeyTail|..] == PublicKeyTail
  {
  }

  /** A PEM match holds `PUBLIC KEY-----` at the end of its begin marker. */
  lemma PemMatchHasTail(s: string, i: int, k: int, j: int, l: int)
    requires PemMatchAt(s, i, k, j, l)
    ensures OccursAt(s, PublicKeyTail, k - |PublicKeyTail|)
  {
    BeginMarkerTail(s[i..k]);
    SliceOfSlice(s, i, k, k - |PublicKeyTail| - i, k - i);
  }

  /** Every PEM match contains the tail `PUBLIC KEY-----` of its begin marker. */
  lemma PemNeedsPublicKeyTail(s: string)
    ensures PemPattern(s) ==> Contains(s, PublicKeyTail)
  {
    if PemPattern(s) {
      var i, k, j, l :| 0 <= i <= k < j <= l <= |s| && PemMatchAt(s, i, k, j, l);
      PemMatchHasTail(s, i, k, j, l);
    }
  }

  /** In a text without line breaks an SSH key line can only start at the beginning. */
  lemma SshSingleLineStartsWithAlgorithm(s: string)
    requires NoLineTerminator(s)
    ensures SshPattern(s) ==> exists n | 0 < n <= |s| :: s[..n] in SshAlgorithms
  {
    if SshPattern(s) {
      var p, a, q, r :| 0 <= p < a < q < r <= |s| && SshMatchAt(s, p, a, q, r);
      assert p == 0;
      assert s[..a] == s[p..a];
    }
  }

  /** Trimming a text without line breaks leaves one without line breaks. */
  lemma NoLineTerminatorInTrim(s: string)
    requires NoLineTerminator(s)
    ensures NoLineTerminator(Trim(s))
  {
    var i0, j0 := TrimSpan(s);
    forall k | 0 <= k < j0 - i0 ensures !IsLineTerminator(Trim(s)[k]) {
      assert Trim(s)[k] == s[i0 + k];
    }
  }

  /**
   * A one-line text with no rejection marker, no PEM marker and no known algorithm at its
   * start — such as a key of an unknown algorithm — is rejected.
   */
  lemma UnknownKeyRejected(text: string)
    requires NoLineTerminator(text)
    requires !Contains(text, PublicKeyTail)
    requires forall n | 0 < n <= |Trim(text)| :: Trim(text)[..n] !in SshAlgorithms
    ensures !ValidateKey(text)
  {
    PemNeedsPublicKeyTail(text);
    PemInTrim(text);
    NoLineTerminatorInTrim(text);
    SshSingleLineStartsWithAlgorithm(Trim(text));
  }

  /** A DSA key line is not one of the accepted algorithms. */
  lemma DsaKeyRejected()
    ensures !ValidateKey("ssh-dss AAAA")
  {
    var s := "ssh-dss AAAA";
    TrimUnchanged(s);
    assert s[..7] == "ssh-dss";
    assert s[..11] == "ssh-dss AAA";
    UnknownKeyRejected(s);
  }
}

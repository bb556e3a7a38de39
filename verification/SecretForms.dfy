/** The keys and tokens of each provider, spelled out character by character. */
module SecretForms {
  import opened SecretScrub

  predicate Digit(c: char) {
    c in "0123456789"
  }

  predicate Upper(c: char) {
    c in "ABCDEFGHIJKLMNOPQRSTUVWXYZ"
  }

  predicate Letter(c: char) {
    Upper(c) || c in "abcdefghijklmnopqrstuvwxyz"
  }

  /** `s` is `prefix` and then only letters, digits and characters of `extra`. */
  ghost predicate Spells(s: string, prefix: string, extra: string) {
    && |prefix| <= |s| && s[..|prefix|] == prefix
    && forall i :: |prefix| <= i < |s| ==> Letter(s[i]) || Digit(s[i]) || s[i] in extra
  }

  ghost predicate AwsKey(s: string) {
    |s| == 20 && s[..4] == "AKIA" && forall i :: 4 <= i < 20 ==> Upper(s[i]) || Digit(s[i])
  }

  ghost predicate OpenAiKey(s: string) {
    |s| >= 23 && Spells(s, "sk-", "")
  }

  ghost predicate GithubToken(s: string) {
    (|s| == 40 && Spells(s, "ghp_", "")) || (|s| == 93 && Spells(s, "github_pat_", "_"))
  }

  ghost predicate GitlabToken(s: string) {
    |s| == 26 && Spells(s, "glpat-", "_-")
  }

  ghost predicate SlackToken(s: string) {
    |s| >= 15 && exists c <- "baprs" :: Spells(s, "xox" + [c] + "-", "-")
  }

  ghost predicate PemHead(s: string) {
    exists kind <- ["RSA ", "EC ", "OPENSSH ", "DSA ", ""] :: s == "-----BEGIN " + kind + "PRIVATE KEY-----"
  }

  ghost predicate GoogleKey(s: string) {
    |s| == 39 && Spells(s, "AIza", "_-")
  }

  // ----- the patterns have these forms

  lemma ClassesAre(c: char)
    ensures InClass(UpperDigit, c) <==> Upper(c) || Digit(c)
    ensures InClass(AlphaNum, c) <==> Letter(c) || Digit(c)
    ensures InClass(Word, c) <==> Letter(c) || Digit(c) || c in "_"
    ensures InClass(WordDash, c) <==> Letter(c) || Digit(c) || c in "_-"
    ensures InClass(AlphaNumDash, c) <==> Letter(c) || Digit(c) || c in "-"
  {
    DigitsAre(c);
    UppersAre(c);
    LowersAre(c);
  }

  lemma DigitsAre(c: char)
    ensures Digit(c) <==> '0' <= c <= '9'
  {
    var all := "0123456789";
    if '0' <= c <= '9' {
      assert all[c as int - '0' as int] == c;
    }
  }

  lemma UppersAre(c: char)
    ensures Upper(c) <==> 'A' <= c <= 'Z'
  {
    var all := "ABCDEFGHIJKLMNOPQRSTUVWXYZ";
    if 'A' <= c <= 'Z' {
      assert all[c as int - 'A' as int] == c;
    }
  }

  lemma LowersAre(c: char)
    ensures c in "abcdefghijklmnopqrstuvwxyz" <==> 'a' <= c <= 'z'
  {
    var all := "abcdefghijklmnopqrstuvwxyz";
    if 'a' <= c <= 'z' {
      assert all[c as int - 'a' as int] == c;
    }
  }

  ghost predicate TailIn(s: string, k: nat, cls: CharClass) {
    forall i :: k <= i < |s| ==> InClass(cls, s[i])
  }

  lemma RunForm(p: Pattern, s: string)
    requires p.Run?
    ensures InLanguage(p, s) <==>
            && |p.prefix| <= |s| && s[..|p.prefix|] == p.prefix && TailIn(s, |p.prefix|, p.cls)
            && (if p.more then |s| >= |p.prefix| + p.count else |s| == |p.prefix| + p.count)
  {
    var k := |p.prefix|;
    if k <= |s| {
      if AllIn(p.cls, s[k..]) {
        forall i | k <= i < |s|
          ensures InClass(p.cls, s[i])
        {
          assert s[k..][i - k] in s[k..];
        }
      }
      if TailIn(s, k, p.cls) {
        assert AllIn(p.cls, s[k..]);
      }
    }
  }

  lemma TailSpells(s: string, prefix: string)
    ensures var fits := |prefix| <= |s| && s[..|prefix|] == prefix;
            && (fits && TailIn(s, |prefix|, AlphaNum) <==> Spells(s, prefix, ""))
            && (fits && TailIn(s, |prefix|, Word) <==> Spells(s, prefix, "_"))
            && (fits && TailIn(s, |prefix|, WordDash) <==> Spells(s, prefix, "_-"))
            && (fits && TailIn(s, |prefix|, AlphaNumDash) <==> Spells(s, prefix, "-"))
  {
    EachClass(s);
  }

  lemma EachClass(s: string)
    ensures forall i :: 0 <= i < |s| ==>
                          && (InClass(AlphaNum, s[i]) <==> Letter(s[i]) || Digit(s[i]))
                          && (InClass(Word, s[i]) <==> Letter(s[i]) || Digit(s[i]) || s[i] in "_")
                          && (InClass(WordDash, s[i]) <==> Letter(s[i]) || Digit(s[i]) || s[i] in "_-")
                          && (InClass(AlphaNumDash, s[i]) <==> Letter(s[i]) || Digit(s[i]) || s[i] in "-")
                          && (InClass(UpperDigit, s[i]) <==> Upper(s[i]) || Digit(s[i]))
  {
    forall i | 0 <= i < |s|
      ensures && (InClass(AlphaNum, s[i]) <==> Letter(s[i]) || Digit(s[i]))
              && (InClass(Word, s[i]) <==> Letter(s[i]) || Digit(s[i]) || s[i] in "_")
              && (InClass(WordDash, s[i]) <==> Letter(s[i]) || Digit(s[i]) || s[i] in "_-")
              && (InClass(AlphaNumDash, s[i]) <==> Letter(s[i]) || Digit(s[i]) || s[i] in "-")
              && (InClass(UpperDigit, s[i]) <==> Upper(s[i]) || Digit(s[i]))
    {
      ClassesAre(s[i]);
    }
  }

  lemma TokenForms(s: string)
    ensures IsSecret(TOKENS, s) <==> AwsKey(s) || OpenAiKey(s) || GithubToken(s) || GitlabToken(s)
  {
    FiveSecrets(TOKENS, s);
    EachRun(TOKENS, s);
    EachClass(s);
    TailSpells(s, "sk-");
    TailSpells(s, "ghp_");
    TailSpells(s, "github_pat_");
    TailSpells(s, "glpat-");
  }

  lemma EachRun(ps: seq<Pattern>, s: string)
    requires |ps| == 5 && forall p <- ps :: p.Run?
    ensures forall k :: 0 <= k < 5 ==>
                          (InLanguage(ps[k], s) <==>
                           && |ps[k].prefix| <= |s| && s[..|ps[k].prefix|] == ps[k].prefix
                           && TailIn(s, |ps[k].prefix|, ps[k].cls)
                           && (if ps[k].more then |s| >= |ps[k].prefix| + ps[k].count
                               else |s| == |ps[k].prefix| + ps[k].count))
  {
    RunForm(ps[0], s);
    RunForm(ps[1], s);
    RunForm(ps[2], s);
    RunForm(ps[3], s);
    RunForm(ps[4], s);
  }

  lemma FiveSecrets(ps: seq<Pattern>, s: string)
    requires |ps| == 5
    ensures IsSecret(ps, s) <==> InLanguage(ps[0], s) || InLanguage(ps[1], s) || InLanguage(ps[2], s)
                                 || InLanguage(ps[3], s) || InLanguage(ps[4], s)
  {
  }

  ghost predicate SlackKind(s: string, kind: char) {
    |s| >= 15 && Spells(s, "xox" + [kind] + "-", "-")
  }

  lemma SlackForms(s: string)
    ensures IsSecret(SLACK, s) <==> SlackToken(s)
  {
    FiveSecrets(SLACK, s);
    EachRun(SLACK, s);
    SlackForm(s, SLACK[0], 'b');
    SlackForm(s, SLACK[1], 'a');
    SlackForm(s, SLACK[2], 'p');
    SlackForm(s, SLACK[3], 'r');
    SlackForm(s, SLACK[4], 's');
    SlackKinds(s);
  }

  lemma SlackForm(s: string, p: Pattern, kind: char)
    requires p == Run("xox" + [kind] + "-", AlphaNumDash, 10, true)
    ensures InLanguage(p, s) <==> SlackKind(s, kind)
  {
    RunForm(p, s);
    TailSpells(s, p.prefix);
  }

  lemma SlackKinds(s: string)
    ensures SlackToken(s) <==>
            SlackKind(s, 'b') || SlackKind(s, 'a') || SlackKind(s, 'p') || SlackKind(s, 'r') || SlackKind(s, 's')
  {
    var kinds := "baprs";
    assert kinds[0] in kinds && kinds[1] in kinds && kinds[2] in kinds && kinds[3] in kinds && kinds[4] in kinds;
  }

  ghost predicate PemOf(s: string, kind: string) {
    s == "-----BEGIN " + kind + "PRIVATE KEY-----"
  }

  lemma PemForm(s: string, kind: string)
    requires MarkerFree(kind)
    ensures InLanguage(PemHeader(kind), s) <==> PemOf(s, kind)
  {
  }

  lemma PemForms(s: string)
    ensures IsSecret(PEM, s) <==> PemHead(s)
  {
    FiveSecrets(PEM, s);
    PemForm(s, "RSA ");
    PemForm(s, "EC ");
    PemForm(s, "OPENSSH ");
    PemForm(s, "DSA ");
    PemForm(s, "");
    PemKinds(s);
  }

  lemma PemKinds(s: string)
    ensures PemHead(s) <==>
            PemOf(s, "RSA ") || PemOf(s, "EC ") || PemOf(s, "OPENSSH ") || PemOf(s, "DSA ") || PemOf(s, "")
  {
    var kinds := ["RSA ", "EC ", "OPENSSH ", "DSA ", ""];
    assert kinds[0] in kinds && kinds[1] in kinds && kinds[2] in kinds && kinds[3] in kinds && kinds[4] in kinds;
  }

  lemma GoogleForm(s: string)
    ensures InLanguage(Run("AIza", WordDash, 35, false), s) <==> GoogleKey(s)
  {
    RunForm(Run("AIza", WordDash, 35, false), s);
    TailSpells(s, "AIza");
  }

  lemma SecretOfTwo(ps: seq<Pattern>, qs: seq<Pattern>, s: string)
    ensures IsSecret(ps + qs, s) <==> IsSecret(ps, s) || IsSecret(qs, s)
  {
    assert forall p :: p in ps + qs <==> p in ps || p in qs;
  }

  lemma SecretOfOne(p: Pattern, s: string)
    ensures IsSecret([p], s) <==> InLanguage(p, s)
  {
    assert p in [p];
  }

  /** Exactly these texts are secrets. */
  lemma SecretsAreExactly(s: string)
    ensures IsSecret(PATTERNS, s) <==>
            || AwsKey(s) || OpenAiKey(s) || GithubToken(s) || GitlabToken(s)
            || SlackToken(s) || PemHead(s) || GoogleKey(s)
  {
    var google := Run("AIza", WordDash, 35, false);
    SecretOfTwo(TOKENS + SLACK + PEM, [google], s);
    SecretOfTwo(TOKENS + SLACK, PEM, s);
    SecretOfTwo(TOKENS, SLACK, s);
    SecretOfOne(google, s);
    TokenForms(s);
    SlackForms(s);
    PemForms(s);
    GoogleForm(s);
  }
}

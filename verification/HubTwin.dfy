// The Docker Hub twin of an official image reference on ECR Public.
module HubTwin {
  import opened Common
  import opened Lines

  const ECR_LIBRARY := "public.ecr.aws/docker/library/"
  const DOCKER_HUB_LIBRARY := "docker.io/library/"

  /** An official image: one name, an optional tag, an optional digest. */
  datatype Image = Image(name: string, tag: Option<string>, digest: Option<string>)

  // ----- the grammar of references -----

  predicate Alnum(c: char) { 'a' <= c <= 'z' || '0' <= c <= '9' }

  /** End of the separator at `i`: a dot, one or two underscores, or a run of dashes. */
  function SeparatorEnd(s: string, i: nat): (e: nat)
    requires i <= |s|
    ensures i <= e <= |s| && forall k :: i <= k < e ==> s[k] in {'.', '_', '-'}
    decreases |s| - i
  {
    if i == |s| then i
    else if s[i] == '-' then (if i + 1 < |s| && s[i + 1] == '-' then SeparatorEnd(s, i + 1) else i + 1)
    else if Two(s, i, '_', '_') then i + 2
    else if s[i] == '.' || s[i] == '_' then i + 1
    else i
  }

  /** From `i` on, runs of lower-case letters and digits with separators between them. */
  predicate NameFrom(s: string, i: nat)
    decreases |s| - i
  {
    && i < |s| && Alnum(s[i])
    && (|| i + 1 == |s| || NameFrom(s, i + 1)
        || (SeparatorEnd(s, i + 1) > i + 1 && NameFrom(s, SeparatorEnd(s, i + 1))))
  }

  predicate IsTag(s: string) {
    1 <= |s| <= 128 && IsWordChar(s[0]) && forall i :: 0 <= i < |s| ==> IsWordChar(s[i]) || s[i] in {'.', '-'}
  }

  predicate Letter(c: char) { 'a' <= c <= 'z' || 'A' <= c <= 'Z' }

  predicate Hex(c: char) { '0' <= c <= '9' || 'a' <= c <= 'f' || 'A' <= c <= 'F' }

  /** A digest algorithm from `i` on up to `e`: words that begin with a letter, with one separator
      between them. */
  predicate AlgorithmFrom(s: string, i: nat, e: nat)
    requires e <= |s|
    decreases |s| - i
  {
    && i < e && Letter(s[i])
    && var r := AlgorithmRun(s, i, e);
       r == e || (s[r] in {'-', '_', '+', '.'} && AlgorithmFrom(s, r + 1, e))
  }

  function AlgorithmRun(s: string, i: nat, e: nat): (r: nat)
    requires i <= e <= |s|
    ensures i <= r <= e && forall k :: i <= k < r ==> Letter(s[k]) || '0' <= s[k] <= '9'
    decreases |s| - i
  {
    if i < e && (Letter(s[i]) || '0' <= s[i] <= '9') then AlgorithmRun(s, i + 1, e) else i
  }

  predicate IsDigest(s: string) {
    var c := FirstChar(s, 0, ':');
    AlgorithmFrom(s, 0, c) && c + 33 <= |s| && forall i :: c < i < |s| ==> Hex(s[i])
  }

  predicate Official(image: Image) {
    && NameFrom(image.name, 0)
    && (image.tag.Some? ==> IsTag(image.tag.value))
    && (image.digest.Some? ==> IsDigest(image.digest.value))
  }

  function Marked(mark: char, part: Option<string>): string {
    if part.Some? then [mark] + part.value else ""
  }

  function Render(image: Image): string {
    image.name + Marked(':', image.tag) + Marked('@', image.digest)
  }

  // The same grammar, character by character.

  predicate Separator(c: char) { c in {'.', '_', '-'} }

  /** In a name, the character is a lower-case letter, a digit or a separator; two separators in a row
      are two underscores or two dashes, three are dashes. */
  predicate NameCharOk(s: string, k: nat)
    requires k < |s|
  {
    && (Alnum(s[k]) || Separator(s[k]))
    && (k + 1 < |s| && Separator(s[k]) && Separator(s[k + 1]) ==> s[k] == s[k + 1] && s[k] != '.')
    && (k + 2 < |s| && Separator(s[k]) && Separator(s[k + 1]) && Separator(s[k + 2]) ==> s[k] == '-')
  }

  ghost predicate NameOk(s: string, i: nat) {
    i < |s| && Alnum(s[i]) && Alnum(s[|s| - 1]) && forall k :: i <= k < |s| ==> NameCharOk(s, k)
  }

  /** The dashes from `i` on are passed as one separator. */
  lemma {:induction false} DashesEnd(s: string, i: nat)
    requires i < |s| && s[i] == '-'
    ensures var e := SeparatorEnd(s, i);
            && i < e <= |s| && (e < |s| ==> s[e] != '-') && forall k :: i <= k < e ==> s[k] == '-'
    decreases |s| - i
  {
    if i + 1 < |s| && s[i + 1] == '-' {
      DashesEnd(s, i + 1);
    }
  }

  /** A separator and what follows it, in both forms of the grammar. */
  lemma SeparatorOk(s: string, i: nat)
    requires i + 1 < |s| && Alnum(s[i]) && Separator(s[i + 1])
    ensures var e := SeparatorEnd(s, i + 1);
            i + 1 < e && (NameOk(s, i) <==> NameOk(s, e))
  {
    var e := SeparatorEnd(s, i + 1);
    if s[i + 1] == '-' {
      DashesEnd(s, i + 1);
      DashesOk(s, i, e);
    } else if Two(s, i + 1, '_', '_') {
      ShortOk(s, i, i + 3);
    } else {
      ShortOk(s, i, i + 2);
    }
  }

  lemma DashesOk(s: string, i: nat, e: nat)
    requires i + 1 < e <= |s| && Alnum(s[i]) && (forall k :: i + 1 <= k < e ==> s[k] == '-')
    requires e < |s| ==> s[e] != '-'
    ensures NameOk(s, i) <==> NameOk(s, e)
  {
    if NameOk(s, i) && e < |s| {
      assert NameCharOk(s, e - 1) && NameCharOk(s, e);
    }
    if NameOk(s, e) {
      assert NameCharOk(s, i);
      forall k | i + 1 <= k < e ensures NameCharOk(s, k) {
      }
    }
  }

  lemma ShortOk(s: string, i: nat, e: nat)
    requires i + 1 < e <= |s| && Alnum(s[i])
    requires if e == i + 3 then s[i + 1] == s[i + 2] == '_'
             else e == i + 2 && s[i + 1] in {'.', '_'} && !Two(s, i + 1, '_', '_')
    ensures NameOk(s, i) <==> NameOk(s, e)
  {
    assert NameCharOk(s, i);
    if NameOk(s, i) {
      assert NameCharOk(s, i + 1) && NameCharOk(s, e - 1);
      assert e < |s| ==> NameCharOk(s, e);
    }
    if NameOk(s, e) {
      assert NameCharOk(s, i + 1) && NameCharOk(s, e - 1);
    }
  }

  lemma {:induction false} NameExactlyFrom(s: string, i: nat)
    ensures NameFrom(s, i) <==> NameOk(s, i)
    decreases |s| - i
  {
    hide NameOk, SeparatorEnd, NameCharOk;
    if i < |s| && Alnum(s[i]) {
      if i + 1 == |s| {
        LastOk(s, i);
      } else if Separator(s[i + 1]) {
        SeparatorOk(s, i);
        NameExactlyFrom(s, SeparatorEnd(s, i + 1));
        NotAName(s, i + 1);
      } else {
        NextOk(s, i);
        NameExactlyFrom(s, i + 1);
      }
    } else {
      NotOk(s, i);
    }
  }

  lemma LastOk(s: string, i: nat)
    requires i + 1 == |s| && Alnum(s[i])
    ensures NameOk(s, i)
  {
  }

  lemma NotAName(s: string, i: nat)
    requires i < |s| && Separator(s[i])
    ensures !NameFrom(s, i)
  {
  }

  lemma NotOk(s: string, i: nat)
    requires i >= |s| || !Alnum(s[i])
    ensures !NameOk(s, i)
  {
  }

  lemma NextOk(s: string, i: nat)
    requires i + 1 < |s| && Alnum(s[i]) && !Separator(s[i + 1])
    ensures SeparatorEnd(s, i + 1) == i + 1 && (NameOk(s, i) <==> NameOk(s, i + 1))
  {
    if NameOk(s, i) {
      assert NameCharOk(s, i + 1);
    }
    assert NameCharOk(s, i);
  }

  /** A name is lower-case letters and digits with single dots, single or double underscores or runs
      of dashes between them. */
  lemma NameExactly(s: string)
    ensures NameFrom(s, 0)
            <==> && s != "" && Alnum(s[0]) && Alnum(s[|s| - 1])
                 && forall k :: 0 <= k < |s| ==> NameCharOk(s, k)
  {
    NameExactlyFrom(s, 0);
  }

  /** In an algorithm, a separator stands before a letter. */
  predicate AlgorithmCharOk(s: string, k: nat, e: nat)
    requires k < e <= |s|
  {
    Letter(s[k]) || '0' <= s[k] <= '9' || (s[k] in {'-', '_', '+', '.'} && k + 1 < e && Letter(s[k + 1]))
  }

  lemma {:induction false} AlgorithmExactly(s: string, i: nat, e: nat)
    requires e <= |s|
    ensures AlgorithmFrom(s, i, e)
            <==> i < e && Letter(s[i]) && forall k :: i <= k < e ==> AlgorithmCharOk(s, k, e)
    decreases |s| - i
  {
    if i < e && Letter(s[i]) {
      var r := AlgorithmRun(s, i, e);
      AlgorithmRunEnds(s, i, e);
      if r < e {
        AlgorithmExactly(s, r + 1, e);
        hide AlgorithmRun;
        assert AlgorithmCharOk(s, r, e) <==> s[r] in {'-', '_', '+', '.'} && r + 1 < e && Letter(s[r + 1]);
      }
    }
  }

  lemma {:induction false} AlgorithmRunEnds(s: string, i: nat, e: nat)
    requires i <= e <= |s|
    ensures var r := AlgorithmRun(s, i, e); r < e ==> !Letter(s[r]) && !('0' <= s[r] <= '9')
    ensures i < e && Letter(s[i]) ==> AlgorithmRun(s, i, e) > i
    decreases e - i
  {
    if i < e && (Letter(s[i]) || '0' <= s[i] <= '9') {
      AlgorithmRunEnds(s, i + 1, e);
    }
  }

  /** A tag is at most 128 letters, digits, underscores, dots and dashes, of which the last two do not
      come first. */
  lemma TagExactly(s: string)
    ensures IsTag(s)
            <==> && 1 <= |s| <= 128
                 && forall i :: 0 <= i < |s| ==>
                      || s[i] in LOWER || s[i] in UPPER || s[i] in "0123456789_"
                      || (i > 0 && s[i] in {'.', '-'})
  {
    forall i | 0 <= i < |s|
      ensures IsWordChar(s[i]) <==> s[i] in LOWER || s[i] in UPPER || s[i] in "0123456789_"
    {
      WordChars(s[i]);
    }
    hide IsWordChar, LOWER, UPPER;
  }

  /** The algorithm is `s[..c]`, and at least 32 hexadecimal digits follow the colon at `c`. */
  ghost predicate DigestAt(s: string, c: nat) {
    && 0 < c < |s| - 32 && s[c] == ':' && Letter(s[0])
    && (forall k :: 0 <= k < c ==> AlgorithmCharOk(s, k, c))
    && forall i :: c < i < |s| ==> s[i] in "0123456789abcdefABCDEF"
  }

  /** A digest is an algorithm, a colon and at least 32 hexadecimal digits. */
  lemma DigestExactly(s: string)
    ensures IsDigest(s) <==> exists c: nat :: DigestAt(s, c)
  {
    var first := FirstChar(s, 0, ':');
    AlgorithmExactly(s, 0, first);
    forall k | 0 <= k < |s| ensures Hex(s[k]) <==> s[k] in "0123456789abcdefABCDEF" {
    }
    hide AlgorithmCharOk, Hex, AlgorithmFrom;
    assert IsDigest(s) <==> DigestAt(s, first);
    forall c: nat | DigestAt(s, c) ensures c == first {
      ColonIsFirst(s, c);
    }
  }

  lemma ColonIsFirst(s: string, c: nat)
    requires DigestAt(s, c)
    ensures FirstChar(s, 0, ':') == c
  {
    forall k | 0 <= k < c ensures s[k] != ':' {
      assert AlgorithmCharOk(s, k, c);
    }
  }

  // ----- the twin -----

  function NameEnd(s: string, i: nat): (e: nat)
    requires i <= |s|
    ensures i <= e <= |s| && (e < |s| ==> s[e] in {':', '@'})
    ensures forall k :: i <= k < e ==> s[k] !in {':', '@'}
    decreases |s| - i
  {
    if i == |s| || s[i] in {':', '@'} then i else NameEnd(s, i + 1)
  }

  /** The reference after the registry, taken apart. */
  function Parse(s: string): Option<Image> {
    var n := NameEnd(s, 0);
    var tagged := n < |s| && s[n] == ':';
    var t := if tagged then FirstChar(s, n + 1, '@') else n;
    var image := Image(s[..n], if tagged then Some(s[n + 1..t]) else None,
                       if t < |s| then Some(s[t + 1..]) else None);
    if Official(image) then Some(image) else None
  }

  /** Without the one newline that may end a reference. */
  function Chomp(s: string): string {
    if s != "" && s[|s| - 1] == '\n' then s[..|s| - 1] else s
  }

  function HubReference(image: Image): string {
    var tag := if image.tag.None? && image.digest.None? then Some("latest") else image.tag;
    "docker-image://" + DOCKER_HUB_LIBRARY + Render(Image(image.name, tag, image.digest))
  }

  predicate StartsWith(s: string, prefix: string) { |prefix| <= |s| && s[..|prefix|] == prefix }

  predicate OnEcr(reference: string) { StartsWith(reference, ECR_LIBRARY) }

  function TwinOf(reference: string): Option<string> {
    if !OnEcr(reference) then None
    else
      var image := Parse(Chomp(reference[|ECR_LIBRARY|..]));
      if image.None? then None else Some(HubReference(image.value))
  }

  // ----- the grammar decides what is redirected, and to what -----

  /** No part of a reference holds a mark of another or a newline. */
  ghost predicate Plain(s: string) { forall i :: 0 <= i < |s| ==> s[i] !in {':', '@', '\n'} }

  lemma {:induction false} NameIsPlain(s: string, i: nat)
    requires NameFrom(s, i)
    ensures forall k :: i <= k < |s| ==> s[k] !in {':', '@', '\n'}
    decreases |s| - i
  {
    if i + 1 < |s| {
      if NameFrom(s, i + 1) {
        NameIsPlain(s, i + 1);
      } else {
        NameIsPlain(s, SeparatorEnd(s, i + 1));
      }
    }
  }

  lemma {:induction false} AlgorithmIsPlain(s: string, i: nat, e: nat)
    requires e <= |s| && AlgorithmFrom(s, i, e)
    ensures forall k :: i <= k < e ==> s[k] !in {':', '@', '\n'}
    decreases |s| - i
  {
    var r := AlgorithmRun(s, i, e);
    if r < e {
      AlgorithmIsPlain(s, r + 1, e);
    }
  }

  lemma DigestHasNoMark(s: string)
    requires IsDigest(s)
    ensures s != "" && forall i :: 0 <= i < |s| ==> s[i] !in {'@', '\n'}
  {
    AlgorithmIsPlain(s, 0, FirstChar(s, 0, ':'));
  }

  lemma PartsArePlain(image: Image)
    requires Official(image)
    ensures image.name != "" && Plain(image.name)
    ensures image.tag.Some? ==> image.tag.value != "" && Plain(image.tag.value)
    ensures image.digest.Some? ==>
              image.digest.value != ""
              && forall i :: 0 <= i < |image.digest.value| ==> image.digest.value[i] !in {'@', '\n'}
  {
    NameIsPlain(image.name, 0);
    if image.digest.Some? {
      DigestHasNoMark(image.digest.value);
    }
  }

  /** Where the parts of a rendered reference stand. */
  lemma RenderedParts(image: Image)
    ensures var s, n := Render(image), |image.name|;
            var t := n + |Marked(':', image.tag)|;
            && n <= t <= |s| && s[..n] == image.name
            && (image.tag.Some? ==> n < t && s[n] == ':' && s[n + 1..t] == image.tag.value)
            && (image.tag.None? ==> t == n)
            && (image.digest.Some? ==> t < |s| && s[t] == '@' && s[t + 1..] == image.digest.value)
            && (image.digest.None? ==> t == |s|)
  {
  }

  lemma MarksStand(image: Image)
    requires Official(image)
    ensures var s, n := Render(image), |image.name|;
            && n <= |s| && NameEnd(s, 0) == n
            && (image.tag.Some? ==> n < |s| && FirstChar(s, n + 1, '@') == n + |Marked(':', image.tag)|)
  {
    var s, n := Render(image), |image.name|;
    var t := n + |Marked(':', image.tag)|;
    PartsArePlain(image);
    RenderedParts(image);
    hide Render, Official, Marked;
    forall k | 0 <= k < n ensures s[k] !in {':', '@'} {
      assert s[..n][k] == s[k];
    }
    if image.tag.Some? {
      forall k | n + 1 <= k < t ensures s[k] != '@' {
        assert s[n + 1..t][k - (n + 1)] == s[k];
      }
      assert FirstChar(s, n + 1, '@') == t;
    }
  }

  lemma ParseIs(s: string, n: nat, t: nat, image: Image)
    requires n <= t <= |s| && NameEnd(s, 0) == n && s[..n] == image.name && Official(image)
    requires if image.tag.Some?
             then n < |s| && s[n] == ':' && FirstChar(s, n + 1, '@') == t > n && s[n + 1..t] == image.tag.value
             else t == n && (n < |s| ==> s[n] != ':')
    requires if image.digest.Some? then t < |s| && s[t + 1..] == image.digest.value else t == |s|
    ensures Parse(s) == Some(image)
  {
    hide NameEnd, FirstChar, Official;
  }

  /** An official reference is taken apart as it was put together. */
  lemma ParseRender(image: Image)
    requires Official(image)
    ensures Parse(Render(image)) == Some(image)
  {
    hide *;
    MarksStand(image);
    RenderedParts(image);
    ParseIs(Render(image), |image.name|, |image.name| + |Marked(':', image.tag)|, image);
  }

  /** What is taken apart is official, and putting it together gives the reference back. */
  lemma RenderParse(s: string)
    requires Parse(s).Some?
    ensures Official(Parse(s).value) && Render(Parse(s).value) == s
  {
    var n := NameEnd(s, 0);
    var tagged := n < |s| && s[n] == ':';
    var t := if tagged then FirstChar(s, n + 1, '@') else n;
    hide Official, NameEnd, FirstChar, Render;
    RenderSlices(s, n, t, Parse(s).value);
  }

  lemma RenderSlices(s: string, n: nat, t: nat, image: Image)
    requires n <= t <= |s| && image.name == s[..n]
    requires if n < t then s[n] == ':' && image.tag == Some(s[n + 1..t]) else image.tag == None
    requires if t < |s| then s[t] == '@' && image.digest == Some(s[t + 1..]) else image.digest == None
    ensures Render(image) == s
  {
    assert s[n..t] == Marked(':', image.tag) by {
      assert n < t ==> s[n..t] == [':'] + s[n + 1..t];
    }
    assert s[t..] == Marked('@', image.digest) by {
      assert t < |s| ==> s[t..] == ['@'] + s[t + 1..];
    }
    hide Marked;
    assert s == s[..n] + s[n..t] + s[t..];
  }

  lemma RenderEndsPlain(image: Image)
    requires Official(image)
    ensures Chomp(Render(image)) == Render(image) && Chomp(Render(image) + "\n") == Render(image)
  {
    RenderEnd(image);
    hide Render, Official;
    var s := Render(image);
    assert (s + "\n")[..|s|] == s;
  }

  lemma RenderEnd(image: Image)
    requires Official(image)
    ensures var s := Render(image); s != "" && s[|s| - 1] != '\n'
  {
    hide *;
    PartsArePlain(image);
    RenderedParts(image);
    var s := Render(image);
    var n := |image.name|;
    var t := n + |Marked(':', image.tag)|;
    if image.digest.Some? {
      LastOf(s, t + 1, |s|, image.digest.value);
    } else if image.tag.Some? {
      LastOf(s, n + 1, |s|, image.tag.value);
    } else {
      LastOf(s, 0, |s|, image.name);
    }
    PlainLast(image);
  }

  lemma LastOf(s: string, a: nat, b: nat, last: string)
    requires a <= b == |s| && last != "" && s[a..b] == last
    ensures s != "" && s[|s| - 1] == last[|last| - 1]
  {
  }

  lemma PlainLast(image: Image)
    requires Official(image)
    ensures image.name != "" && image.name[|image.name| - 1] != '\n'
    ensures image.tag.Some? ==> image.tag.value != "" && image.tag.value[|image.tag.value| - 1] != '\n'
    ensures image.digest.Some? ==>
              image.digest.value != "" && image.digest.value[|image.digest.value| - 1] != '\n'
  {
    PartsArePlain(image);
    hide Official;
  }

  /** `tail` is the rendered image, with or without a final newline. */
  predicate Spells(tail: string, image: Image) {
    Official(image) && tail in {Render(image), Render(image) + "\n"}
  }

  lemma ChompKeeps(tail: string)
    ensures tail == Chomp(tail) || tail == Chomp(tail) + "\n"
  {
  }

  lemma SpellsExactly(tail: string, image: Image)
    ensures Parse(Chomp(tail)) == Some(image) <==> Spells(tail, image)
  {
    hide Parse, Render, Chomp, Official;
    ChompKeeps(tail);
    if Parse(Chomp(tail)) == Some(image) {
      RenderParse(Chomp(tail));
    }
    if Spells(tail, image) {
      ParseRender(image);
      RenderEndsPlain(image);
    }
  }

  lemma SpelledAfter(reference: string, prefix: string, image: Image)
    ensures StartsWith(reference, prefix) && Spells(reference[|prefix|..], image)
            <==> Official(image) && reference in {prefix + Render(image), prefix + (Render(image) + "\n")}
  {
    hide Render, Official;
    AfterPrefix(reference, prefix, Render(image));
    AfterPrefix(reference, prefix, Render(image) + "\n");
  }

  lemma AfterPrefix(s: string, prefix: string, tail: string)
    ensures StartsWith(s, prefix) && s[|prefix|..] == tail <==> s == prefix + tail
  {
    if s == prefix + tail {
      assert s[..|prefix|] == prefix && s[|prefix|..] == tail;
    }
    if StartsWith(s, prefix) && s[|prefix|..] == tail {
      assert s == s[..|prefix|] + s[|prefix|..];
    }
  }

  /** A part of a reference after its mark, if it is there. */
  function After(mark: string, part: Option<string>): string {
    if part.None? then "" else mark + part.value
  }

  /** The reference on ECR Public and the twin on Docker Hub, part by part. */
  ghost predicate Twins(reference: string, twin: string, image: Image) {
    var rest := After(":", image.tag) + After("@", image.digest);
    && Official(image)
    && reference in {"public.ecr.aws/docker/library/" + (image.name + rest),
                     "public.ecr.aws/docker/library/" + (image.name + rest) + "\n"}
    && twin == "docker-image://docker.io/library/" + (image.name + if rest == "" then ":latest" else rest)
  }

  /** A reference is redirected exactly when it names an official image on ECR Public, and then
      to the same name, tag and digest on Docker Hub, or to the tag `latest` when it has neither. */
  lemma TwinExactly(reference: string, twin: string)
    ensures TwinOf(reference) == Some(twin) <==> exists image :: Twins(reference, twin, image)
  {
    forall image
      ensures Twins(reference, twin, image)
              <==> && OnEcr(reference) && Parse(Chomp(reference[|ECR_LIBRARY|..])) == Some(image)
                   && twin == HubReference(image)
    {
      NamesExactly(reference, image);
      TwinsByParts(reference, twin, image);
    }
    hide Parse, Chomp, Names, HubReference, ECR_LIBRARY, Twins;
  }

  lemma RenderedAfter(image: Image)
    ensures Render(image) == image.name + (After(":", image.tag) + After("@", image.digest))
  {
  }

  lemma TwinsByParts(reference: string, twin: string, image: Image)
    ensures Twins(reference, twin, image) <==> Names(reference, image) && twin == HubReference(image)
  {
    var tag := if image.tag.None? && image.digest.None? then Some("latest") else image.tag;
    RenderedAfter(image);
    RenderedAfter(Image(image.name, tag, image.digest));
    hide Official, Render;
    var rest := After(":", image.tag) + After("@", image.digest);
    assert rest == "" <==> image.tag.None? && image.digest.None?;
    assert After(":", Some("latest")) + After("@", None) == ":latest";
    var name := image.name;
    assert ECR_LIBRARY + (name + rest) + "\n" == ECR_LIBRARY + (name + rest + "\n");
    assert "docker-image://" + DOCKER_HUB_LIBRARY == "docker-image://docker.io/library/";
  }

  /** The reference is that of the image on ECR Public; one newline may follow it. */
  predicate Names(reference: string, image: Image) {
    && Official(image)
    && reference in {ECR_LIBRARY + Render(image), ECR_LIBRARY + (Render(image) + "\n")}
  }

  lemma NamesExactly(reference: string, image: Image)
    ensures OnEcr(reference) ==> |ECR_LIBRARY| <= |reference|
    ensures Names(reference, image)
            <==> OnEcr(reference) && Parse(Chomp(reference[|ECR_LIBRARY|..])) == Some(image)
  {
    hide Parse, Chomp, Spells, Official, Render;
    SpelledAfter(reference, ECR_LIBRARY, image);
    if OnEcr(reference) {
      SpellsExactly(reference[|ECR_LIBRARY|..], image);
    }
  }
}

/** The template helpers of backend/utils/templateUtils.js: extraction of
    `{{name}}` placeholders, sequential substitution of a data object into a
    template, and the check that a data object covers every placeholder. */
module TemplateUtils {
  import opened Js
  import opened Strings
  import opened Lists

  /** The `template` argument: a string, or any other value (null,
      undefined, a number, ...), which the helpers treat specially. */
  datatype TemplateArg = Text(s: string) | NotText

  /* ---- Scanning with /\{\{([^}]+)\}\}/g ---- */

  /** End of the run of non-`}` characters starting at `k`. */
  function RunEnd(s: string, k: nat): (j: nat)
    requires k <= |s|
    ensures k <= j <= |s|
    ensures forall i :: k <= i < j ==> s[i] != '}'
    ensures j < |s| ==> s[j] == '}'
    decreases |s| - k
  {
    if k == |s| || s[k] == '}' then k else RunEnd(s, k + 1)
  }

  /** `/\{\{([^}]+)\}\}/` matches at `i` with its capture group ending
      at `j`: `{{`, a non-empty run without `}`, then `}}`. */
  predicate IsMatchAt(s: string, i: nat, j: nat) {
    && i + 2 < j && j + 2 <= |s|
    && s[i] == '{' && s[i + 1] == '{'
    && (forall k :: i + 2 <= k < j ==> s[k] != '}')
    && s[j] == '}' && s[j + 1] == '}'
  }

  /** Whether the pattern matches at position `i`, and if so the end of
      its capture group. `[^}]+` is greedy and can only be followed by `}`
      at the end of the run, so the run end is the only candidate. */
  function MatchAt(s: string, i: nat): (r: Option<nat>)
    requires i <= |s|
    ensures r.Some? ==> IsMatchAt(s, i, r.value)
    ensures r.None? ==> forall j :: !IsMatchAt(s, i, j)
    ensures r.Some? ==> s[i..i + 2] == "{{" && s[r.value..r.value + 2] == "}}"
  {
    if i + 2 <= |s| && s[i] == '{' && s[i + 1] == '{' then
      var j := RunEnd(s, i + 2);
      MatchEndsAtRunEnd(s, i);
      if j > i + 2 && j + 2 <= |s| && s[j + 1] == '}' then Some(j) else None
    else None
  }

  /** A match at `i` can only end its capture group where the run of
      non-`}` characters ends. */
  lemma MatchEndsAtRunEnd(s: string, i: nat)
    requires i + 2 <= |s|
    ensures forall j :: IsMatchAt(s, i, j) ==> j == RunEnd(s, i + 2)
  {
    forall j | IsMatchAt(s, i, j) ensures j == RunEnd(s, i + 2) {
      RunEndAt(s, i + 2, j);
    }
  }

  /** The capture groups of the successive `exec` matches from position
      `i` on: each is the non-empty, `}`-free text X of a `{{X}}` span, and
      there is none exactly when the pattern matches nowhere from `i` on.
      `CapturesFirstMatch` says which match comes first. */
  function Captures(s: string, i: nat): (xs: seq<string>)
    requires i <= |s|
    ensures forall x :: x in xs ==> x != [] && '}' !in x && Contains(s, TokenFor(x))
    ensures xs == [] <==> forall m, j :: i <= m ==> !IsMatchAt(s, m, j)
    decreases |s| - i
  {
    if i == |s| then []
    else match MatchAt(s, i)
      case None => Captures(s, i + 1)
      case Some(j) =>
        var x := s[i + 2..j];
        assert '}' !in x by {
          forall k | 0 <= k < |x| ensures x[k] != '}' {
            assert x[k] == s[i + 2 + k];
          }
        }
        assert s[i..j + 2] == s[i..i + 2] + x + s[j..j + 2];
        assert OccursAt(s, TokenFor(x), i);
        [x] + Captures(s, j + 2)
  }

  /** The `exec` loop resumes after each match: when the first match from
      `i` on is at `m`, its capture heads the list and the scan goes on
      after its closing `}}`. With `Captures`' emptiness clause this fixes
      the capture list of every text. */
  lemma {:induction false} CapturesFirstMatch(s: string, i: nat, m: nat, j: nat)
    requires i <= m && IsMatchAt(s, m, j)
    requires forall m', j' :: i <= m' < m ==> !IsMatchAt(s, m', j')
    ensures Captures(s, i) == [s[m + 2..j]] + Captures(s, j + 2)
    decreases m - i
  {
    assert m < |s|;
    if i == m {
      CapturesAtMatch(s, m, j);
    } else {
      CapturesSkip(s, i);
      CapturesFirstMatch(s, i + 1, m, j);
    }
  }

  /** Where the pattern matches, the scan records the capture and resumes
      after the closing `}}`. */
  lemma CapturesAtMatch(s: string, m: nat, j: nat)
    requires IsMatchAt(s, m, j)
    ensures Captures(s, m) == [s[m + 2..j]] + Captures(s, j + 2)
  {
    MatchEndsAtRunEnd(s, m);
    assert MatchAt(s, m) == Some(j) by {
      assert MatchAt(s, m).value == RunEnd(s, m + 2) == j;
    }
  }

  /** Where the pattern does not match, the scan moves on by one. */
  lemma CapturesSkip(s: string, i: nat)
    requires i < |s| && forall j :: !IsMatchAt(s, i, j)
    ensures Captures(s, i) == Captures(s, i + 1)
  {
    assert MatchAt(s, i).None?;
  }

  /** Completeness of the scan: a `{{x}}` whose prefix holds no `{` is
      found first, and its trimmed name (when not blank) is extracted. */
  lemma TokenCaptured(a: string, x: string, b: string)
    requires '{' !in a && x != [] && '}' !in x
    ensures var s := a + TokenFor(x) + b;
      Captures(s, 0) == [x] + Captures(s, |a| + |x| + 4)
    ensures Trim(x) != [] ==> Trim(x) in ExtractVariables(Text(a + TokenFor(x) + b))
  {
    var s := a + TokenFor(x) + b;
    var m, j := |a|, |a| + 2 + |x|;
    assert s[m] == '{' && s[m + 1] == '{';
    assert s[j] == '}' && s[j + 1] == '}';
    assert s[m + 2..j] == x;
    assert IsMatchAt(s, m, j) by {
      forall k | m + 2 <= k < j ensures s[k] != '}' {
        assert s[k] == x[k - m - 2];
      }
    }
    forall m', j' | 0 <= m' < m ensures !IsMatchAt(s, m', j') {
      assert s[m'] == a[m'];
    }
    CapturesFirstMatch(s, 0, m, j);
  }

  /** The trimmed, non-empty capture groups, in the order they are met. */
  function Candidates(xs: seq<string>): (cs: seq<string>)
    ensures forall c :: c in cs ==> c != [] && exists x :: x in xs && Trim(x) == c
    ensures forall x :: x in xs && Trim(x) != [] ==> Trim(x) in cs
    decreases |xs|
  {
    if xs == [] then []
    else
      var init, last := xs[..|xs| - 1], xs[|xs| - 1];
      var name := Trim(last);
      var rest := Candidates(init);
      var cs := rest + (if name != [] then [name] else []);
      InitLast(xs);
      forall c | c in cs ensures c != [] && exists x :: x in xs && Trim(x) == c {
        if c in rest {
          var x :| x in init && Trim(x) == c;
          assert x in xs;
        } else {
          assert last in xs && Trim(last) == c;
        }
      }
      forall x | x in xs && Trim(x) != [] ensures Trim(x) in cs {
        if x != last {
          assert x in init;
        }
      }
      cs
  }

  /** The `while (regex.exec(...))` loop: trim each capture and push it
      unless it is empty or already listed. */
  function CollectNames(xs: seq<string>, k: nat, names: seq<string>): (r: seq<string>)
    requires k <= |xs|
    requires IsDedupOf(Candidates(xs[..k]), names)
    ensures IsDedupOf(Candidates(xs), r)
    decreases |xs| - k
  {
    if k == |xs| then
      assert xs[..k] == xs;
      names
    else
      var name := Trim(xs[k]);
      var names' := if name != [] && name !in names then names + [name] else names;
      CollectStep(xs, k, names);
      CollectNames(xs, k + 1, names')
  }

  /** One iteration of the extraction loop keeps the first-occurrence
      description of the names seen so far. */
  lemma CollectStep(xs: seq<string>, k: nat, names: seq<string>)
    requires k < |xs|
    requires IsDedupOf(Candidates(xs[..k]), names)
    ensures var name := Trim(xs[k]);
      IsDedupOf(Candidates(xs[..k + 1]),
                if name != [] && name !in names then names + [name] else names)
  {
    var name := Trim(xs[k]);
    CandidatesSnoc(xs, k);
    var before := Candidates(xs[..k]);
    if name != [] {
      DedupStep(before, names, name);
    } else {
      assert before + [] == before;
    }
  }

  /** Extending the prefix by one capture adds at most its trimmed name. */
  lemma CandidatesSnoc(xs: seq<string>, k: nat)
    requires k < |xs|
    ensures var name := Trim(xs[k]);
      Candidates(xs[..k + 1]) == Candidates(xs[..k]) + (if name != [] then [name] else [])
  {
    var prefix := xs[..k + 1];
    assert prefix[..|prefix| - 1] == xs[..k];
    assert prefix[|prefix| - 1] == xs[k];
  }

  /** `extractVariablesFromTemplate(template)`. */
  function ExtractVariables(t: TemplateArg): (r: seq<string>)
    ensures t.NotText? || t.s == [] ==> r == []
    ensures t.Text? ==> IsDedupOf(Candidates(Captures(t.s, 0)), r)
    ensures NoDuplicates(r)
    ensures forall v :: v in r ==> v != [] && IsTrimmed(v) && '}' !in v
    ensures forall v :: v in r ==> t.Text? && exists x :: x in Captures(t.s, 0) && Trim(x) == v
  {
    if t.NotText? || t.s == [] then []
    else
      assert Captures(t.s, 0)[..0] == [];
      CollectNames(Captures(t.s, 0), 0, [])
  }

  /* ---- Substitution ---- */

  /** The literal placeholder text for `key`. */
  function TokenFor(key: string): (tok: string)
    ensures |tok| == |key| + 4
  {
    "{{" + key + "}}"
  }

  /** A key that contains no RegExp metacharacter (braces included), so
      that `new RegExp('\\{\\{' + key + '\\}\\}')` matches exactly
      `TokenFor(key)`. */
  predicate SafeKey(key: string) {
    forall c :: c in key ==> c !in "\\^$.|?*+()[]{}"
  }

  /** The replacement `value || ''`: falsy values become the empty string. */
  function ReplacementText(v: JsValue): (r: string)
    ensures Truthy(v) ==> r == Shown(v)
    ensures !Truthy(v) ==> r == []
  {
    if Truthy(v) then Shown(v) else []
  }

  /** Data whose keys and replacement texts are taken literally by
      `String.prototype.replace`: no metacharacters, no `$` patterns. */
  predicate LiteralData(data: Object) {
    forall i :: 0 <= i < |data| ==> SafeKey(data[i].0) && '$' !in ReplacementText(data[i].1)
  }

  /** The substitution loop over `Object.entries(data)`: each key in turn
      replaces every `{{key}}` in the text produced so far. */
  function PopulateText(s: string, data: Object): string
    decreases |data|
  {
    if data == [] then s
    else PopulateText(ReplaceAll(s, TokenFor(data[0].0), ReplacementText(data[0].1)), data[1..])
  }

  /** `populateTemplate(template, data)`. */
  function PopulateTemplate(t: TemplateArg, data: Object): (r: TemplateArg)
    requires LiteralData(data)
    ensures t.NotText? || t.s == [] ==> r == t
    ensures t.Text? ==> r.Text?
    ensures t.Text? && (forall i :: 0 <= i < |data| ==> !Contains(t.s, TokenFor(data[i].0))) ==> r == t
  {
    if t.NotText? || t.s == [] then t
    else
      PopulateUntouched(t.s, data);
      Text(PopulateText(t.s, data))
  }

  /** A text holding no placeholder of any data key comes back unchanged. */
  lemma {:induction false} PopulateUntouched(s: string, data: Object)
    ensures (forall i :: 0 <= i < |data| ==> !Contains(s, TokenFor(data[i].0))) ==> PopulateText(s, data) == s
    decreases |data|
  {
    if data != [] && forall i :: 0 <= i < |data| ==> !Contains(s, TokenFor(data[i].0)) {
      assert !Contains(s, TokenFor(data[0].0));
      ReplaceAllAbsent(s, TokenFor(data[0].0), ReplacementText(data[0].1));
      assert forall i :: 0 <= i < |data[1..]| ==> data[1..][i] == data[i + 1];
      PopulateUntouched(s, data[1..]);
    }
  }

  /** Substitution is sequential: the last key is applied to the text the
      earlier keys produced, including text they inserted. */
  lemma {:induction false} PopulateSnoc(s: string, data: Object, key: string, value: JsValue)
    ensures PopulateText(s, data + [(key, value)])
         == ReplaceAll(PopulateText(s, data), TokenFor(key), ReplacementText(value))
    decreases |data|
  {
    if data == [] {
      assert [] + [(key, value)] == [(key, value)];
    } else {
      var s' := ReplaceAll(s, TokenFor(data[0].0), ReplacementText(data[0].1));
      assert (data + [(key, value)])[1..] == data[1..] + [(key, value)];
      PopulateSnoc(s', data[1..], key, value);
    }
  }

  /** A key's value may itself contain a later key's placeholder, which is
      then filled in too. */
  lemma ChainedSubstitution()
    ensures PopulateText("{{a}}", [("a", JsString("{{b}}")), ("b", JsString("X"))]) == "X"
  {
    var step := ReplaceAll("{{a}}", TokenFor("a"), "{{b}}");
    assert step == "{{b}}";
    assert ReplaceAll(step, TokenFor("b"), "X") == "X";
  }

  /** Falsy values are substituted as the empty string. */
  lemma FalsyValueErases()
    ensures PopulateText("{{n}}!", [("n", JsOther("0", false))]) == "!"
  {
    assert ReplaceAll("!", TokenFor("n"), []) == "!";
  }

  /** The capture run ends at the first `}`. */
  lemma {:induction false} RunEndAt(s: string, a: nat, b: nat)
    requires a <= b < |s| && s[b] == '}'
    requires forall k :: a <= k < b ==> s[k] != '}'
    ensures RunEnd(s, a) == b
    decreases b - a
  {
    if a < b {
      RunEndAt(s, a + 1, b);
    }
  }

  /** `{{ a }}` yields one match whose capture keeps the padding. */
  lemma PaddedPlaceholderCaptured()
    ensures Captures("{{ a }}", 0) == [" a "]
  {
    var s := "{{ a }}";
    RunEndAt(s, 2, 5);
    assert MatchAt(s, 0) == Some(5);
    assert Captures(s, 7) == [];
    assert s[2..5] == " a ";
    assert Captures(s, 0) == [s[2..5]] + Captures(s, 7);
  }

  /** Extraction trims the placeholder text: `{{ a }}` is reported as
      `a`. */
  lemma PaddedPlaceholderExtracted()
    ensures ExtractVariables(Text("{{ a }}")) == ["a"]
  {
    var r := ExtractVariables(Text("{{ a }}"));
    assert IsDedupOf(["a"], r) by {
      PaddedPlaceholderCaptured();
      PaddedCandidates();
    }
    SingletonDedup("a", r);
  }

  lemma PaddedCandidates()
    ensures Candidates([" a "]) == ["a"]
  {
    PaddedNameTrimmed();
    var xs := [" a "];
    assert xs[..|xs| - 1] == [] && xs[|xs| - 1] == " a ";
  }

  /** Trimming removes the padding around `a`. */
  lemma PaddedNameTrimmed()
    ensures Trim(" a ") == "a"
  {
    assert !IsWhitespace('a');
    assert " a "[1..] == "a ";
    assert TrimStart(" a ") == TrimStart("a ") == "a ";
    assert "a "[..1] == "a";
    assert TrimEnd("a ") == TrimEnd("a") == "a";
  }

  /** A placeholder holding only whitespace is matched but dropped. */
  lemma WhitespaceTokenDropped()
    ensures Captures("{{  }}", 0) == ["  "]
    ensures ExtractVariables(Text("{{  }}")) == []
  {
    var s := "{{  }}";
    RunEndAt(s, 2, 4);
    assert MatchAt(s, 0) == Some(4);
    assert Captures(s, 6) == [];
    assert s[2..4] == "  ";
    assert Captures(s, 0) == [s[2..4]] + Captures(s, 6);
    assert AllWhitespace("  ");
    var xs := ["  "];
    assert xs[..|xs| - 1] == [] && xs[|xs| - 1] == "  ";
    assert Candidates(xs) == [];
    var r := ExtractVariables(Text(s));
    assert forall v :: v !in r;
  }

  /** The only first-occurrence listing of a single element is itself. */
  lemma SingletonDedup(x: string, r: seq<string>)
    requires IsDedupOf([x], r)
    ensures r == [x]
  {
    assert x in r;
    DistinctCardinality(r);
    assert (set y | y in r) == {x};
  }

  /** Substitution matches the placeholder text verbatim: the key `a`
      does not fill in `{{ a }}`. */
  lemma PaddedPlaceholderKept()
    ensures PopulateTemplate(Text("{{ a }}"), [("a", JsString("Ann"))]) == Text("{{ a }}")
  {
    var s := "{{ a }}";
    var tok := TokenFor("a");
    assert tok == "{{a}}";
    assert !Contains(s, tok) by {
      forall i | 0 <= i <= |s| - |tok| ensures !OccursAt(s, tok, i) {
        assert s[i..i + |tok|][2 - i] == ' ';
      }
    }
  }

  /** `validateTemplateData(template, data)`. */
  datatype Validation = Validation(
    isValid: bool,
    requiredVariables: seq<string>,
    missingVariables: seq<string>,
    availableKeys: seq<string>)

  /** `data` is `None` for `null`/`undefined`, which `data || {}` treats as
      an empty object. */
  function ValidateTemplateData(t: TemplateArg, data: Option<Object>): (v: Validation)
    ensures v.requiredVariables == ExtractVariables(t)
    ensures data.None? ==> v.availableKeys == []
    ensures data.Some? ==> v.availableKeys == Keys(data.value)
    ensures forall x :: x in v.missingVariables <==> x in v.requiredVariables && x !in v.availableKeys
    ensures Subsequence(v.missingVariables, v.requiredVariables)
    ensures NoDuplicates(v.missingVariables)
    ensures v.isValid <==> v.missingVariables == []
    ensures v.isValid <==> forall x :: x in v.requiredVariables ==> x in v.availableKeys
  {
    var required := ExtractVariables(t);
    var available := if data.Some? then Keys(data.value) else [];
    var missing := Filter(required, x => x !in available);
    SubsequenceNoDuplicates(missing, required);
    assert missing != [] ==> missing[0] in missing;
    Validation(missing == [], required, missing, available)
  }
}

/** `${name}` template substitution: find the marker names, then, name by name, replace every
    occurrence of that name's marker with its replacement. Whether a name has a
    replacement is a lookup policy, and the two copies of the engine use different ones. */
module Templates {
  import opened Wrappers
  import opened Text
  import opened Values
  import opened VariableStore

  /** The text after substituting `names` in order; a name the lookup does not resolve leaves
      its markers as they are. */
  function Substitute(text: string, names: seq<string>, lookup: string -> Option<string>): string
    decreases |names|
  {
    if |names| == 0 then text
    else
      var before := Substitute(text, names[..|names| - 1], lookup);
      var name := names[|names| - 1];
      match lookup(name)
      case Some(rep) => Replace(before, Marker(name), rep)
      case None => before
  }

  /** The full substitution of a text: its own markers, found before any replacement. */
  function Resolved(text: string, lookup: string -> Option<string>): string {
    Substitute(text, FindMarkers(text), lookup)
  }

  /** The controller's policy (controllers/diagram_controller.py): a declared variable becomes
      `str(value)`, an undeclared name is left alone. */
  function Declared(d: Store): string -> Option<string> {
    name => if name in d.entries then Some(Str(d.entries[name].value)) else None
  }

  /** The node classes' policy (models/llm_node.py, models/smtp_node.py): the context value
      printed as text, and a missing name becomes empty. */
  function FromContext(ctx: map<string, Value>): string -> Option<string> {
    name => Some(if name in ctx then Str(ctx[name]) else "")
  }

  /** The substitution loop: one `replace` per name found in the original text. */
  method Resolve(text: string, lookup: string -> Option<string>) returns (r: string)
    ensures r == Resolved(text, lookup)
  {
    var names := FindMarkers(text);
    r := text;
    var i := 0;
    while i < |names|
      invariant 0 <= i <= |names|
      invariant r == Substitute(text, names[..i], lookup)
    {
      var name := names[i];
      var rep := lookup(name);
      if rep.Some? {
        r := Replace(r, Marker(name), rep.value);
      }
      i := i + 1;
      assert names[..i][..i - 1] == names[..i - 1];
    }
    assert names[..|names|] == names;
  }

  // ---------------------------------------------------------------------------
  // properties

  /** Names that the lookup does not resolve change nothing. */
  lemma {:induction false} UnresolvedNamesChangeNothing(text: string, names: seq<string>, lookup: string -> Option<string>)
    requires forall k :: 0 <= k < |names| ==> lookup(names[k]).None?
    ensures Substitute(text, names, lookup) == text
    decreases |names|
  {
    if |names| > 0 {
      UnresolvedNamesChangeNothing(text, names[..|names| - 1], lookup);
    }
  }

  /** Text without `${` is returned unchanged, whatever the policy. */
  lemma TextWithoutMarkersUnchanged(text: string, lookup: string -> Option<string>)
    requires NoOccurrence(text, "${")
    ensures Resolved(text, lookup) == text
  {
    NoMarkersWithoutOpening(text);
  }

  /** A single marker between marker-free text is replaced by the lookup's value, or kept
      verbatim when the lookup does not resolve it. */
  lemma SingleMarker(t: string, name: string, u: string, lookup: string -> Option<string>)
    requires NoOccurrence(t, "${") && NoOccurrence(u, "${")
    requires |name| > 0 && NoOccurrence(name, "}")
    ensures Resolved(t + Marker(name) + u, lookup) ==
            t + (match lookup(name) case Some(rep) => rep case None => Marker(name)) + u
  {
    var s := t + Marker(name) + u;
    SingleMarkerFound(t, name, u);
    assert FindMarkers(s) == [name];
    assert [name][..0] == [];
    assert Substitute(s, [name][..0], lookup) == s;
    match lookup(name)
    case Some(rep) =>
      ReplaceSingleMarker(t, name, u, rep);
      assert Substitute(s, [name], lookup) == Replace(s, Marker(name), rep);
    case None =>
      assert Substitute(s, [name], lookup) == s;
  }

  /** Controller policy: a declared variable's marker becomes `str(value)`. */
  lemma DeclaredMarkerReplaced(d: Store, t: string, name: string, u: string)
    requires NoOccurrence(t, "${") && NoOccurrence(u, "${")
    requires |name| > 0 && NoOccurrence(name, "}")
    requires name in d.entries
    ensures Resolved(t + Marker(name) + u, Declared(d)) == t + Str(d.entries[name].value) + u
  {
    SingleMarker(t, name, u, Declared(d));
  }

  /** Controller policy: the marker of an undeclared name stays verbatim. */
  lemma UndeclaredMarkerKept(d: Store, t: string, name: string, u: string)
    requires NoOccurrence(t, "${") && NoOccurrence(u, "${")
    requires |name| > 0 && NoOccurrence(name, "}")
    requires name !in d.entries
    ensures Resolved(t + Marker(name) + u, Declared(d)) == t + Marker(name) + u
  {
    SingleMarker(t, name, u, Declared(d));
  }

  /** Node policy: the marker of a name missing from the context disappears. */
  lemma MissingContextMarkerEmptied(ctx: map<string, Value>, t: string, name: string, u: string)
    requires NoOccurrence(t, "${") && NoOccurrence(u, "${")
    requires |name| > 0 && NoOccurrence(name, "}")
    requires name !in ctx
    ensures Resolved(t + Marker(name) + u, FromContext(ctx)) == t + u
  {
    SingleMarker(t, name, u, FromContext(ctx));
  }

  /** Node policy: a context value's marker becomes `str(value)`. */
  lemma ContextMarkerReplaced(ctx: map<string, Value>, t: string, name: string, u: string)
    requires NoOccurrence(t, "${") && NoOccurrence(u, "${")
    requires |name| > 0 && NoOccurrence(name, "}")
    requires name in ctx
    ensures Resolved(t + Marker(name) + u, FromContext(ctx)) == t + Str(ctx[name]) + u
  {
    SingleMarker(t, name, u, FromContext(ctx));
  }

  // ---------------------------------------------------------------------------
  // templates with any number of markers

  /** A marker of a template and the literal text that follows it. */
  datatype Piece = Piece(name: string, after: string)

  /** The template `t`, then each piece's marker followed by its text. */
  function Build(t: string, ps: seq<Piece>): string
    decreases |ps|
  {
    if |ps| == 0 then t else t + Marker(ps[0].name) + Build(ps[0].after, ps[1..])
  }

  /** The names of the pieces, in order. */
  function Names(ps: seq<Piece>): (names: seq<string>)
    ensures |names| == |ps| && forall k :: 0 <= k < |ps| ==> names[k] == ps[k].name
  {
    seq(|ps|, k requires 0 <= k < |ps| => ps[k].name)
  }

  /** What a marker becomes: the lookup's text, or the marker itself when there is none. */
  function Shown(name: string, lookup: string -> Option<string>): string {
    match lookup(name)
    case Some(rep) => rep
    case None => Marker(name)
  }

  /** The template with every marker shown as the lookup says. */
  function Rendered(t: string, ps: seq<Piece>, lookup: string -> Option<string>): string
    decreases |ps|
  {
    if |ps| == 0 then t else t + Shown(ps[0].name, lookup) + Rendered(ps[0].after, ps[1..], lookup)
  }

  /** The template part way through the substitution: the markers of the names in `done` are
      shown, the others are still markers. */
  function Partly(t: string, ps: seq<Piece>, lookup: string -> Option<string>, done: set<string>): string
    decreases |ps|
  {
    if |ps| == 0 then t
    else t + PieceShown(ps[0].name, lookup, done) + Partly(ps[0].after, ps[1..], lookup, done)
  }

  /** One marker part way through the substitution. */
  function PieceShown(name: string, lookup: string -> Option<string>, done: set<string>): string {
    if name in done then Shown(name, lookup) else Marker(name)
  }

  /** Text that substitution leaves alone: no `${`, and no trailing `$` that a replacement
      starting with `{` could turn into one. */
  ghost predicate Literal(t: string) {
    NoOccurrence(t, "${") && (|t| > 0 ==> t[|t| - 1] != '$')
  }

  /** A replacement that cannot form part of a new marker. */
  predicate Plain(v: string) {
    forall i :: 0 <= i < |v| ==> v[i] != '$' && v[i] != '{'
  }

  /** A name `re.findall` returns as a whole: non-empty, without `}` and without `$`. */
  predicate MarkerName(n: string) {
    |n| > 0 && forall i :: 0 <= i < |n| ==> n[i] != '$' && n[i] != '}'
  }

  /** A template of literal text and well-formed markers whose replacements are plain. */
  ghost predicate Clean(t: string, ps: seq<Piece>, lookup: string -> Option<string>) {
    && Literal(t)
    && (forall k :: 0 <= k < |ps| ==> Literal(ps[k].after) && MarkerName(ps[k].name))
    && (forall k :: 0 <= k < |ps| ==> lookup(ps[k].name).Some? ==> Plain(lookup(ps[k].name).value))
  }

  /** Every `${name}` of the template is replaced by the lookup's text, or kept when the lookup
      has none, whatever the number of markers, their order and their repetitions. */
  lemma EveryMarkerResolved(t: string, ps: seq<Piece>, lookup: string -> Option<string>)
    requires Clean(t, ps, lookup)
    ensures FindMarkers(Build(t, ps)) == Names(ps)
    ensures Resolved(Build(t, ps), lookup) == Rendered(t, ps, lookup)
  {
    BuiltMarkersFound(t, ps);
    var names := Names(ps);
    SubstitutedPartly(t, ps, lookup, names);
    PartlyAllDone(t, ps, lookup, set n | n in names);
  }

  /** Controller policy on any template: a declared variable's markers become `str(value)`,
      an undeclared name's markers stay verbatim. */
  lemma DeclaredMarkersResolved(d: Store, t: string, ps: seq<Piece>)
    requires Literal(t) && forall k :: 0 <= k < |ps| ==> Literal(ps[k].after) && MarkerName(ps[k].name)
    requires forall k :: 0 <= k < |ps| ==> ps[k].name in d.entries ==> Plain(Str(d.entries[ps[k].name].value))
    ensures Resolved(Build(t, ps), Declared(d)) == Rendered(t, ps, Declared(d))
    ensures forall n :: n in d.entries ==> Shown(n, Declared(d)) == Str(d.entries[n].value)
    ensures forall n :: n !in d.entries ==> Shown(n, Declared(d)) == Marker(n)
  {
    EveryMarkerResolved(t, ps, Declared(d));
  }

  /** Node policy on any template: a context value's markers become `str(value)`, and the
      markers of a missing name become empty. */
  lemma ContextMarkersResolved(ctx: map<string, Value>, t: string, ps: seq<Piece>)
    requires Literal(t) && forall k :: 0 <= k < |ps| ==> Literal(ps[k].after) && MarkerName(ps[k].name)
    requires forall k :: 0 <= k < |ps| ==> ps[k].name in ctx ==> Plain(Str(ctx[ps[k].name]))
    ensures Resolved(Build(t, ps), FromContext(ctx)) == Rendered(t, ps, FromContext(ctx))
    ensures forall n :: n in ctx ==> Shown(n, FromContext(ctx)) == Str(ctx[n])
    ensures forall n :: n !in ctx ==> Shown(n, FromContext(ctx)) == ""
  {
    EveryMarkerResolved(t, ps, FromContext(ctx));
  }

  /** The scan finds the pieces' names in order. */
  lemma {:induction false} BuiltMarkersFound(t: string, ps: seq<Piece>)
    requires NoOccurrence(t, "${")
    requires forall k :: 0 <= k < |ps| ==> NoOccurrence(ps[k].after, "${") && MarkerName(ps[k].name)
    ensures FindMarkers(Build(t, ps)) == Names(ps)
    decreases |ps|
  {
    if |ps| == 0 {
      NoMarkersWithoutOpening(t);
    } else {
      NameHasNoClosing(ps[0].name);
      FirstMarkerFound(t, ps[0].name, Build(ps[0].after, ps[1..]));
      assert forall k :: 0 <= k < |ps[1..]| ==> ps[1..][k] == ps[k + 1];
      BuiltMarkersFound(ps[0].after, ps[1..]);
      assert Names(ps) == [ps[0].name] + Names(ps[1..]);
    }
  }

  lemma NameHasNoClosing(n: string)
    requires MarkerName(n)
    ensures NoOccurrence(n, "}")
  {
    forall j: nat ensures !Occurs(n, "}", j) {
      if j + 1 <= |n| {
        assert n[j..j + 1][0] == n[j];
      }
    }
  }

  /** Substituting names one after another shows exactly the markers of the names done. */
  lemma {:induction false} SubstitutedPartly(t: string, ps: seq<Piece>, lookup: string -> Option<string>, names: seq<string>)
    requires Clean(t, ps, lookup)
    requires forall k :: 0 <= k < |names| ==> MarkerName(names[k])
    ensures Substitute(Build(t, ps), names, lookup) == Partly(t, ps, lookup, set n | n in names)
    decreases |names|
  {
    if |names| == 0 {
      assert (set n | n in names) == {};
      PartlyNoneDone(t, ps, lookup);
    } else {
      var init := names[..|names| - 1];
      var name := names[|names| - 1];
      var doneBefore := set n | n in init;
      SubstitutedPartly(t, ps, lookup, init);
      assert (set n | n in names) == (set n | n in init) + {name} by {
        assert names == init + [name];
      }
      match lookup(name)
      case Some(rep) =>
        ReplaceInPartly(t, ps, lookup, doneBefore, name);
      case None =>
        UnresolvedStaysMarker(t, ps, lookup, doneBefore, name);
    }
  }

  lemma {:induction false} PartlyNoneDone(t: string, ps: seq<Piece>, lookup: string -> Option<string>)
    ensures Partly(t, ps, lookup, {}) == Build(t, ps)
    decreases |ps|
  {
    if |ps| > 0 {
      PartlyNoneDone(ps[0].after, ps[1..], lookup);
    }
  }

  lemma {:induction false} PartlyAllDone(t: string, ps: seq<Piece>, lookup: string -> Option<string>, done: set<string>)
    requires forall k :: 0 <= k < |ps| ==> ps[k].name in done
    ensures Partly(t, ps, lookup, done) == Rendered(t, ps, lookup)
    decreases |ps|
  {
    if |ps| > 0 {
      assert forall k :: 0 <= k < |ps[1..]| ==> ps[1..][k] == ps[k + 1];
      PartlyAllDone(ps[0].after, ps[1..], lookup, done);
    }
  }

  /** A name the lookup does not resolve shows as its marker whether done or not. */
  lemma {:induction false} UnresolvedStaysMarker(t: string, ps: seq<Piece>, lookup: string -> Option<string>,
                                                done: set<string>, n: string)
    requires lookup(n).None?
    ensures Partly(t, ps, lookup, done + {n}) == Partly(t, ps, lookup, done)
    decreases |ps|
  {
    if |ps| > 0 {
      UnresolvedStaysMarker(ps[0].after, ps[1..], lookup, done, n);
    }
  }

  /** One `replace` of a resolved name's marker shows that name and nothing else. */
  lemma {:induction false} ReplaceInPartly(t: string, ps: seq<Piece>, lookup: string -> Option<string>,
                                          done: set<string>, n: string)
    requires Clean(t, ps, lookup) && MarkerName(n) && lookup(n).Some?
    ensures Replace(Partly(t, ps, lookup, done), Marker(n), lookup(n).value) == Partly(t, ps, lookup, done + {n})
    decreases |ps|
  {
    var m := Marker(n);
    var rep := lookup(n).value;
    if |ps| == 0 {
      NoMarkerWithoutOpening(t, n);
      ReplaceAbsent(t, m, rep);
    } else {
      var p := ps[0];
      var shown := PieceShown(p.name, lookup, done);
      var rest := Partly(p.after, ps[1..], lookup, done);
      CleanTail(t, ps, lookup);
      ReplaceInPartly(p.after, ps[1..], lookup, done, n);
      ReplacePastPiece(t, p.name, lookup, done, n, rest, Partly(p.after, ps[1..], lookup, done + {n}));
    }
  }

  /** One step of the induction: the literal text is kept, the piece's marker is replaced when
      it is the name's, and the rest is replaced as the hypothesis says. */
  lemma ReplacePastPiece(t: string, name: string, lookup: string -> Option<string>, done: set<string>,
                         n: string, rest: string, after: string)
    requires Literal(t) && MarkerName(name) && MarkerName(n) && lookup(n).Some?
    requires lookup(name).Some? ==> Plain(lookup(name).value)
    requires Replace(rest, Marker(n), lookup(n).value) == after
    ensures Replace(t + PieceShown(name, lookup, done) + rest, Marker(n), lookup(n).value)
         == t + PieceShown(name, lookup, done + {n}) + after
  {
    var shown := PieceShown(name, lookup, done);
    var m := Marker(n);
    var rep := lookup(n).value;
    var shown' := PieceShown(name, lookup, done + {n});
    calc {
      Replace(t + shown + rest, m, rep);
      { assert t + shown + rest == t + (shown + rest); }
      Replace(t + (shown + rest), m, rep);
      { LiteralStartsNoMarker(t, shown + rest, n); ReplacePastPrefix(t, shown + rest, m, rep); }
      t + Replace(shown + rest, m, rep);
      { ReplaceInPiece(name, lookup, done, n, rest); }
      t + (shown' + after);
      t + shown' + after;
    }
  }

  /** The pieces after the first are as clean as the whole. */
  lemma CleanTail(t: string, ps: seq<Piece>, lookup: string -> Option<string>)
    requires Clean(t, ps, lookup) && |ps| > 0
    ensures Clean(ps[0].after, ps[1..], lookup)
    ensures MarkerName(ps[0].name) && (lookup(ps[0].name).Some? ==> Plain(lookup(ps[0].name).value))
  {
    assert Literal(ps[0].after);
    forall k | 0 <= k < |ps[1..]|
      ensures Literal(ps[1..][k].after) && MarkerName(ps[1..][k].name)
      ensures lookup(ps[1..][k].name).Some? ==> Plain(lookup(ps[1..][k].name).value)
    {
      assert ps[1..][k] == ps[k + 1];
    }
  }

  /** Past the literal text, one piece's shown text is replaced as a whole or not at all. */
  lemma ReplaceInPiece(name: string, lookup: string -> Option<string>, done: set<string>, n: string, rest: string)
    requires MarkerName(name) && MarkerName(n) && lookup(n).Some?
    requires lookup(name).Some? ==> Plain(lookup(name).value)
    ensures Replace(PieceShown(name, lookup, done) + rest, Marker(n), lookup(n).value)
         == PieceShown(name, lookup, done + {n}) + Replace(rest, Marker(n), lookup(n).value)
  {
    var shown := PieceShown(name, lookup, done);
    var m := Marker(n);
    var rep := lookup(n).value;
    if name in done && lookup(name).Some? {
      PlainStartsNoMarker(shown, rest, n);
      ReplacePastPrefix(shown, rest, m, rep);
    } else if name == n {
      ReplaceAtStart(m, rest, rep);
    } else {
      OtherMarkerStartsNoMarker(name, rest, n);
      ReplacePastPrefix(shown, rest, m, rep);
    }
  }

  /** No marker starts inside literal text, even when more text follows. */
  lemma LiteralStartsNoMarker(a: string, b: string, n: string)
    requires Literal(a)
    ensures forall j: nat :: j < |a| ==> !Occurs(a + b, Marker(n), j)
  {
    var s := a + b;
    var m := Marker(n);
    forall j: nat | j < |a| ensures !Occurs(s, m, j) {
      if j + |m| <= |s| {
        assert s[j..j + |m|][0] == s[j] == a[j];
        if j + 1 < |a| {
          assert !Occurs(a, "${", j);
          assert a[j..j + 2] == s[j..j + 2] == s[j..j + |m|][..2];
        }
      }
    }
  }

  /** No marker starts inside a plain replacement. */
  lemma PlainStartsNoMarker(v: string, b: string, n: string)
    requires Plain(v)
    ensures forall j: nat :: j < |v| ==> !Occurs(v + b, Marker(n), j)
  {
    forall j: nat | j < |v| ensures !Occurs(v + b, Marker(n), j) {
      if j + |Marker(n)| <= |v + b| {
        assert (v + b)[j..j + |Marker(n)|][0] == (v + b)[j] == v[j];
      }
    }
  }

  /** No marker of another name starts inside a marker. */
  lemma OtherMarkerStartsNoMarker(m: string, b: string, n: string)
    requires MarkerName(m) && MarkerName(n) && m != n
    ensures forall j: nat :: j < |Marker(m)| ==> !Occurs(Marker(m) + b, Marker(n), j)
  {
    var s := Marker(m) + b;
    forall j: nat | j < |Marker(m)| ensures !Occurs(s, Marker(n), j) {
      if j + |Marker(n)| <= |s| {
        var w := s[j..j + |Marker(n)|];
        if j > 0 {
          assert w[0] == s[j] && (j == 1 || j == |Marker(m)| - 1 || s[j] == m[j - 2]);
        } else if |n| < |m| {
          assert w[|n| + 2] == m[|n|] && Marker(n)[|n| + 2] == '}';
        } else if |n| > |m| {
          assert w[|m| + 2] == '}' && Marker(n)[|m| + 2] == n[|m|];
        } else {
          assert w == Marker(m);
          if Marker(m) == Marker(n) {
            MarkerNamesAgree(m, n);
          }
        }
      }
    }
  }

  /** The marker of one name equals that of another only for the same name. */
  lemma MarkerNamesAgree(m: string, n: string)
    requires Marker(m) == Marker(n)
    ensures m == n
  {
    assert m == Marker(m)[2..|Marker(m)| - 1];
  }
}

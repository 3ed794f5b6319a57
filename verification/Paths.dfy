/** Lexical resolution of a request path below a root directory. */
module Paths {
  import opened Wrappers
  import opened Decimals

  datatype Component = RootDir | CurDir | ParentDir | Normal(name: string)

  // A path as its components. The root can only come first.
  type Path = seq<Component>

  predicate IsPath(path: Path) {
    forall i | 0 < i < |path| :: path[i] != RootDir
  }

  /* ---- reading components from text ---- */

  function Components(text: string): Path {
    if text != "" && text[0] == '/' then [RootDir] + Segments(Split(text, '/'), false)
    else Segments(Split(text, '/'), true)
  }

  // Empty segments and `.` vanish, except a leading `.` of a relative path.
  function Segments(parts: seq<string>, leading: bool): Path {
    if parts == [] then [] else Segment(parts[0], leading) + Segments(parts[1..], false)
  }

  function Segment(part: string, leading: bool): Path {
    if part == "" then []
    else if part == "." then (if leading then [CurDir] else [])
    else if part == ".." then [ParentDir]
    else [Normal(part)]
  }

  function TrimSlashes(text: string): string {
    if text != "" && text[0] == '/' then TrimSlashes(text[1..]) else text
  }

  lemma {:induction false} SegmentsHaveNoRoot(parts: seq<string>, leading: bool)
    ensures RootDir !in Segments(parts, leading)
  {
    if parts != [] {
      SegmentsHaveNoRoot(parts[1..], false);
    }
  }

  // A request path that has been stripped of its leading slashes is never absolute.
  lemma {:induction false} TrimmedRequestIsRelative(text: string)
    ensures RootDir !in Components(TrimSlashes(text))
  {
    if text != "" && text[0] == '/' {
      TrimmedRequestIsRelative(text[1..]);
    } else {
      SegmentsHaveNoRoot(Split(text, '/'), true);
    }
  }

  /* ---- components are read as they are written ---- */

  predicate IsPlain(name: string) {
    name != "" && name != "." && name != ".." && '/' !in name
  }

  // The paths that a text can stand for.
  ghost predicate IsReadable(path: Path) {
    && (forall i | 0 <= i < |path| && path[i].Normal? :: IsPlain(path[i].name))
    && (forall i | 0 < i < |path| :: path[i].Normal? || path[i].ParentDir?)
  }

  function SegmentText(c: Component): string {
    match c
    case RootDir => ""
    case CurDir => "."
    case ParentDir => ".."
    case Normal(name) => name
  }

  function SegmentTexts(path: Path): seq<string> {
    seq(|path|, i requires 0 <= i < |path| => SegmentText(path[i]))
  }

  // A path as text.
  function Written(path: Path): string {
    if path == [RootDir] then "/" else Joined(SegmentTexts(path), '/')
  }

  lemma {:induction false} SegmentsAreReadable(parts: seq<string>, leading: bool)
    requires forall i | 0 <= i < |parts| :: '/' !in parts[i]
    ensures IsReadable(Segments(parts, leading)) && RootDir !in Segments(parts, leading)
    ensures !leading ==> CurDir !in Segments(parts, leading)
  {
    if parts != [] {
      SegmentsAreReadable(parts[1..], false);
      var rest := Segments(parts[1..], false);
      forall i | 0 <= i < |rest| ensures rest[i].Normal? || rest[i].ParentDir? {
        assert rest[i] in rest;
      }
    }
  }

  // Whatever the text: a component that counts as a name is none of the special ones.
  lemma ComponentsAreReadable(text: string)
    ensures IsReadable(Components(text))
  {
    JoinOfSplit(text, '/');
    SegmentsAreReadable(Split(text, '/'), false);
    SegmentsAreReadable(Split(text, '/'), true);
    var rest := Segments(Split(text, '/'), false);
    forall i | 0 <= i < |rest| ensures rest[i].Normal? || rest[i].ParentDir? {
      assert rest[i] in rest;
    }
  }

  lemma {:induction false} SegmentsOfTexts(path: Path, leading: bool)
    requires IsReadable(path) && RootDir !in path && (CurDir in path ==> leading)
    ensures Segments(SegmentTexts(path), leading) == path
    decreases |path|
  {
    if path != [] {
      TailIsReadable(path);
      SegmentsOfTexts(path[1..], false);
      SegmentOfText(path[0], leading);
      assert path == [path[0]] + path[1..];
    }
  }

  lemma SegmentOfText(c: Component, leading: bool)
    requires c != RootDir && (c.Normal? ==> IsPlain(c.name)) && (c == CurDir ==> leading)
    ensures Segment(SegmentText(c), leading) == [c]
  {
  }

  lemma TailIsReadable(path: Path)
    requires IsReadable(path) && path != []
    ensures IsReadable(path[1..]) && RootDir !in path[1..] && CurDir !in path[1..]
    ensures SegmentTexts(path)[1..] == SegmentTexts(path[1..]) && path[0] in path
    ensures RootDir !in path ==> path[0] != RootDir
  {
  }

  lemma TextsHaveNoSlash(path: Path)
    requires IsReadable(path)
    ensures forall i | 0 <= i < |path| :: '/' !in SegmentTexts(path)[i]
  {
  }

  // A text that starts with a `/` comes from the root, and the only other text that does is "/".
  lemma JoinedStart(parts: seq<string>)
    requires |parts| > 0 && (parts[0] == "" ==> |parts| > 1) && '/' !in parts[0]
    ensures Joined(parts, '/') != "" && (Joined(parts, '/')[0] == '/' <==> parts[0] == "")
  {
    if parts[0] != "" {
      assert Joined(parts, '/')[0] == parts[0][0] && parts[0][0] in parts[0];
    }
  }

  // A path that is written with `/` between its components, `..` for a parent, is read back.
  lemma ReadWritten(path: Path)
    requires IsReadable(path)
    ensures Components(Written(path)) == path
  {
    var texts := SegmentTexts(path);
    TextsHaveNoSlash(path);
    if path == [RootDir] {
      ComponentsOfRoot();
    } else if path != [] {
      SplitOfJoin(texts, '/');
      JoinedStart(texts);
      if path[0] == RootDir {
        assert RootDir !in path[1..] && CurDir !in path[1..];
        SegmentsOfTexts(path[1..], false);
        assert texts[1..] == SegmentTexts(path[1..]);
        assert Segments(texts, false) == [] + path[1..];
      } else {
        SegmentsOfTexts(path, true);
      }
    }
  }

  lemma {:induction false} InnerSegmentsOfConcat(p: seq<string>, q: seq<string>)
    ensures Segments(p + q, false) == Segments(p, false) + Segments(q, false)
    decreases |p|
  {
    if p == [] {
      assert p + q == q;
    } else {
      assert (p + q)[1..] == p[1..] + q;
      InnerSegmentsOfConcat(p[1..], q);
      ConcatIsAssociative(Segment(p[0], false), Segments(p[1..], false), Segments(q, false));
    }
  }

  lemma ConcatIsAssociative(a: Path, b: Path, c: Path)
    ensures a + (b + c) == (a + b) + c
  {
  }

  lemma SegmentsOfConcat(p: seq<string>, q: seq<string>, leading: bool)
    requires p != []
    ensures Segments(p + q, leading) == Segments(p, leading) + Segments(q, false)
  {
    assert (p + q)[1..] == p[1..] + q;
    InnerSegmentsOfConcat(p[1..], q);
    ConcatIsAssociative(Segment(p[0], leading), Segments(p[1..], false), Segments(q, false));
  }

  // A path without a leading root or `.`.
  function Inner(path: Path): Path {
    if path != [] && (path[0] == RootDir || path[0] == CurDir) then path[1..] else path
  }

  lemma InnerOfStart(part: string, rest: Path)
    requires rest != [] ==> rest[0].Normal? || rest[0].ParentDir?
    ensures Inner(Segment(part, true) + rest) == Segment(part, false) + rest
  {
    assert [] + rest == rest;
  }

  lemma InnerOfSegments(parts: seq<string>)
    requires parts != [] && forall i | 0 <= i < |parts| :: '/' !in parts[i]
    ensures Inner(Segments(parts, true)) == Segments(parts, false)
  {
    SegmentsAreReadable(parts[1..], false);
    var rest := Segments(parts[1..], false);
    assert rest != [] ==> rest[0] in rest;
    InnerOfStart(parts[0], rest);
  }

  lemma InnerOfComponents(text: string)
    ensures Inner(Components(text)) == Segments(Split(text, '/'), false)
  {
    JoinOfSplit(text, '/');
    InnerOfSegments(Split(text, '/'));
  }

  // A text is read piece by piece: empty pieces and inner `.` vanish, nothing else does.
  lemma ComponentsOfConcat(a: string, b: string)
    requires a != ""
    ensures Components(a + "/" + b) == Components(a) + Inner(Components(b))
  {
    assert a + "/" + b == a + ['/'] + b;
    SplitOfConcat(a, '/', b);
    InnerOfComponents(b);
    SegmentsOfConcat(Split(a, '/'), Split(b, '/'), a[0] != '/');
  }

  lemma ComponentsOfPiece(piece: string)
    requires '/' !in piece
    ensures Components(piece) == if piece == "" then [] else if piece == "." then [CurDir]
                                 else if piece == ".." then [ParentDir] else [Normal(piece)]
  {
    SplitNone(piece, '/');
    assert piece != "" ==> piece[0] in piece;
    assert Segments([piece][1..], false) == [];
  }

  lemma ComponentsOfRoot()
    ensures Components("/") == [RootDir]
  {
    assert Split("/", '/') == [""] + Split("", '/');
  }

  lemma RootHasComponents(text: string)
    requires text != ""
    ensures Components(text) != []
  {
    if text[0] != '/' {
      FirstPartEndsAtSeparator(text, '/');
      var part := Split(text, '/')[0];
      assert part != "";
    }
  }

  lemma NoRootWithoutSlash(text: string)
    requires text == "" || text[0] != '/'
    ensures RootDir !in Components(text)
  {
    JoinOfSplit(text, '/');
    SegmentsAreReadable(Split(text, '/'), true);
  }

  /* ---- resolution ---- */

  // Removing the last component fails on the root and on the empty path.
  predicate CanPop(path: Path) {
    path != [] && path[|path| - 1] != RootDir
  }

  function Resolve(full: Path, requested: Path): Option<Path>
    decreases requested
  {
    if requested == [] then Some(full)
    else
      match requested[0]
      case Normal(_) => Resolve(full + [requested[0]], requested[1..])
      case RootDir => None
      case ParentDir => if CanPop(full) then Resolve(full[..|full| - 1], requested[1..]) else None
      case CurDir => Resolve(full, requested[1..])
  }

  function Sanitized(base: Path, requested: Path): Option<Path> {
    match Resolve(base, requested)
    case None => None
    case Some(full) => if base <= full then Some(full) else None
  }

  // The base, and below it plain names only.
  ghost predicate IsBelow(base: Path, path: Path) {
    base <= path && forall i | |base| <= i < |path| :: path[i].Normal? && IsPlain(path[i].name)
  }

  method SanitizePath(base: Path, requestedPath: string) returns (path: Option<Path>)
    ensures path == Sanitized(base, Components(requestedPath))
    ensures path.Some? && IsPath(base) ==> IsBelow(base, path.value)
  {
    var fullPath := base;
    var requested := Components(requestedPath);
    for i := 0 to |requested|
      invariant Resolve(base, requested) == Resolve(fullPath, requested[i..])
    {
      assert requested[i..][1..] == requested[i + 1..];
      match requested[i]
      case Normal(_) => fullPath := fullPath + [requested[i]];
      case RootDir => return None;
      case ParentDir =>
        if !CanPop(fullPath) {
          return None;
        }
        fullPath := fullPath[..|fullPath| - 1];
      case CurDir =>
    }
    assert requested[|requested|..] == [];
    path := if base <= fullPath then Some(fullPath) else None;
    if path.Some? && IsPath(base) {
      GrantedTextStaysBelow(base, requestedPath);
    }
  }

  /* ---- what it computes ---- */

  // A request in lexical normal form: so many levels up, then names.
  datatype Form = Form(up: nat, names: Path)

  function Normalise(form: Form, requested: Path): Form
    decreases requested
  {
    if requested == [] then form else Normalise(Next(form, requested[0]), requested[1..])
  }

  function Next(form: Form, c: Component): Form {
    match c
    case Normal(_) => form.(names := form.names + [c])
    case ParentDir => if form.names == [] then form.(up := form.up + 1) else form.(names := form.names[..|form.names| - 1])
    case _ => form
  }

  function NormalForm(requested: Path): Form {
    Normalise(Form(0, []), requested)
  }

  function Levels(base: Path): nat {
    if base != [] && base[0] == RootDir then |base| - 1 else |base|
  }

  ghost predicate AllNames(path: Path) {
    forall c | c in path :: c.Normal?
  }

  // The path a form stands for, `up` levels above the end of the base.
  function Reached(base: Path, form: Form): Path
    requires form.up <= |base|
  {
    base[..|base| - form.up] + form.names
  }

  // Resolving from there gives what the form becomes, unless that is above the topmost level.
  ghost predicate ResolvesTo(base: Path, form: Form, requested: Path) {
    var out := Normalise(form, requested);
    && AllNames(out.names) && out.up >= form.up && form.up <= |base|
    && Resolve(Reached(base, form), requested) ==
         if out.up <= Levels(base) then Some(Reached(base, out)) else None
  }

  lemma ResolveName(base: Path, form: Form, requested: Path)
    requires requested != [] && requested[0].Normal? && form.up <= |base|
    requires ResolvesTo(base, form.(names := form.names + [requested[0]]), requested[1..])
    ensures ResolvesTo(base, form, requested)
  {
    var next := form.(names := form.names + [requested[0]]);
    assert Reached(base, form) + [requested[0]] == Reached(base, next);
  }

  // `..` after a name takes the name back.
  lemma ResolveParentOfName(base: Path, form: Form, requested: Path)
    requires requested != [] && requested[0].ParentDir? && form.up <= |base| && form.names != [] && AllNames(form.names)
    requires ResolvesTo(base, form.(names := form.names[..|form.names| - 1]), requested[1..])
    ensures ResolvesTo(base, form, requested)
  {
    var full, next := Reached(base, form), form.(names := form.names[..|form.names| - 1]);
    assert form.names[|form.names| - 1] in form.names;
    assert full[..|full| - 1] == Reached(base, next);
  }

  // `..` without a name climbs in the base.
  lemma ResolveParentOfBase(base: Path, form: Form, requested: Path)
    requires IsPath(base) && requested != [] && requested[0].ParentDir? && form.names == [] && form.up < Levels(base)
    requires ResolvesTo(base, Form(form.up + 1, []), requested[1..])
    ensures ResolvesTo(base, form, requested)
  {
    var full := Reached(base, form);
    assert full == base[..|base| - form.up] && CanPop(full);
    assert full[..|full| - 1] == Reached(base, Form(form.up + 1, []));
  }

  // At the topmost level it fails.
  lemma ResolveParentOfTop(base: Path, form: Form, requested: Path)
    requires IsPath(base) && requested != [] && requested[0].ParentDir? && form.names == [] && form.up == Levels(base)
    ensures ResolvesTo(base, form, requested)
  {
    assert Reached(base, form) == base[..|base| - form.up] && !CanPop(Reached(base, form));
    NormaliseOnlyRises(Form(form.up + 1, []), requested[1..]);
  }

  lemma {:induction false} ResolveIsNormalForm(base: Path, form: Form, requested: Path)
    requires IsPath(base) && RootDir !in requested && form.up <= Levels(base) && AllNames(form.names)
    ensures ResolvesTo(base, form, requested)
    decreases requested
  {
    if requested != [] {
      match requested[0] {
        case Normal(_) =>
          ResolveIsNormalForm(base, form.(names := form.names + [requested[0]]), requested[1..]);
          ResolveName(base, form, requested);
        case ParentDir =>
          if form.names != [] {
            ResolveIsNormalForm(base, form.(names := form.names[..|form.names| - 1]), requested[1..]);
            ResolveParentOfName(base, form, requested);
          } else if form.up < Levels(base) {
            ResolveIsNormalForm(base, Form(form.up + 1, []), requested[1..]);
            ResolveParentOfBase(base, form, requested);
          } else {
            ResolveParentOfTop(base, form, requested);
          }
        case CurDir =>
          ResolveIsNormalForm(base, form, requested[1..]);
      }
    }
  }

  lemma {:induction false} NormaliseOnlyRises(form: Form, requested: Path)
    requires AllNames(form.names)
    ensures Normalise(form, requested).up >= form.up && AllNames(Normalise(form, requested).names)
    decreases requested
  {
    if requested != [] {
      NormaliseOnlyRises(Next(form, requested[0]), requested[1..]);
    }
  }

  // A relative request is accepted iff it stays below the topmost level and, where it climbs
  // above the base, comes back through the base's own names; the result is then the base
  // with the remaining names.
  lemma SanitizedIs(base: Path, requested: Path)
    requires IsPath(base) && RootDir !in requested
    ensures var form := NormalForm(requested);
            var back := if form.up <= |base| then base[|base| - form.up..] else [];
            Sanitized(base, requested) ==
              if form.up <= Levels(base) && back <= form.names then Some(base + form.names[form.up..]) else None
  {
    var form := NormalForm(requested);
    ResolveIsNormalForm(base, Form(0, []), requested);
    assert Reached(base, Form(0, [])) == base;
    if form.up <= Levels(base) {
      var cut := |base| - form.up;
      var full := base[..cut] + form.names;
      assert base == base[..cut] + base[cut..];
      if base[cut..] <= form.names {
        assert form.names == base[cut..] + form.names[form.up..];
        assert full == base + form.names[form.up..];
      }
      assert full[cut..] == form.names;
    }
  }

  // Every accepted path is the base followed by plain names only.
  lemma AcceptedIsBaseAndNames(base: Path, requested: Path)
    requires IsPath(base) && RootDir !in requested && Sanitized(base, requested).Some?
    ensures base <= Sanitized(base, requested).value
    ensures AllNames(Sanitized(base, requested).value[|base|..])
  {
    SanitizedIs(base, requested);
    NormaliseOnlyRises(Form(0, []), requested);
    var form := NormalForm(requested);
    assert (base + form.names[form.up..])[|base|..] == form.names[form.up..];
  }

  lemma {:induction false} NamesComeFromRequest(form: Form, requested: Path, c: Component)
    requires c in Normalise(form, requested).names
    ensures c in form.names || c in requested
    decreases requested
  {
    if requested != [] {
      NamesComeFromRequest(Next(form, requested[0]), requested[1..], c);
    }
  }

  lemma NamesArePlain(requested: Path)
    requires IsReadable(requested)
    ensures var names := NormalForm(requested).names; forall i | 0 <= i < |names| :: names[i].Normal? && IsPlain(names[i].name)
  {
    var names := NormalForm(requested).names;
    NormaliseOnlyRises(Form(0, []), requested);
    forall i | 0 <= i < |names| ensures names[i].Normal? && IsPlain(names[i].name) {
      assert names[i] in names;
      NamesComeFromRequest(Form(0, []), requested, names[i]);
    }
  }

  // Whatever the text of a request: what is granted is the base followed by names that are
  // neither empty nor `.` nor `..` and hold no `/`.
  lemma GrantedTextStaysBelow(base: Path, text: string)
    requires IsPath(base) && Sanitized(base, Components(text)).Some?
    ensures IsBelow(base, Sanitized(base, Components(text)).value)
  {
    var requested := Components(text);
    ComponentsAreReadable(text);
    assert requested != [] ==> requested[0] != RootDir;
    SanitizedIs(base, requested);
    NamesArePlain(requested);
  }

  // A request is accepted under every base iff it never climbs above its start, and then
  // gives the base followed by its lexical normal form.
  lemma AcceptedEverywhereIffNeverClimbs(requested: Path)
    requires RootDir !in requested
    ensures (forall base | IsPath(base) :: Sanitized(base, requested).Some?) <==> NormalForm(requested).up == 0
    ensures NormalForm(requested).up == 0 ==>
              forall base | IsPath(base) :: Sanitized(base, requested) == Some(base + NormalForm(requested).names)
  {
    SanitizedIs([], requested);
    assert IsPath([]);
    if NormalForm(requested).up == 0 {
      forall base | IsPath(base) ensures Sanitized(base, requested) == Some(base + NormalForm(requested).names) {
        SanitizedIs(base, requested);
      }
    }
  }

  lemma {:induction false} NamesAreNormal(form: Form, names: Path)
    requires AllNames(names)
    ensures Normalise(form, names) == form.(names := form.names + names)
    decreases names
  {
    if names != [] {
      assert names[0] in names;
      NamesAreNormal(form.(names := form.names + [names[0]]), names[1..]);
      assert form.names + [names[0]] + names[1..] == form.names + names;
    } else {
      assert form.names + [] == form.names;
    }
  }

  // Asking again for what was granted grants the same.
  lemma SanitizedIsIdempotent(base: Path, requested: Path)
    requires IsPath(base) && RootDir !in requested && Sanitized(base, requested).Some?
    ensures var full := Sanitized(base, requested).value;
            Sanitized(base, full[|base|..]) == Some(full)
  {
    var full := Sanitized(base, requested).value;
    AcceptedIsBaseAndNames(base, requested);
    var names := full[|base|..];
    NamesAreNormal(Form(0, []), names);
    assert [] + names == names;
    assert RootDir !in names;
    SanitizedIs(base, names);
    assert full == base + names[0..];
  }
}

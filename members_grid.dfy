/** The logic of the collective's member grid (components/members-grid.tsx):
    the role filter buttons, built from the members' combined roles; the
    members a role selects; the role kept in the page's URL hash; the
    translated role labels; each card's image carousel; and the Instagram
    link. */
module MembersGrid {
  import opened Wrappers
  import opened Strings

  /** The fields of a member the grid reads. */
  datatype Member = Member(
    name: string,
    role: string,
    headshot: string,
    carousel: Option<seq<string>>,
    instagram: Option<string>)

  /** `t.collective.roles`: the translated labels of the known roles. */
  datatype RoleLabels = RoleLabels(singer: string, producer: string, dj: string, singerProducer: string)

  // ---------------------------------------------------------------------
  // Role translation

  /** `translateRole`: the lower-cased, trimmed role is compared with the
      known roles, then tested for holding both `singer` and `producer`;
      any other role is shown as written. */
  function TranslateRole(labels: RoleLabels, role: string): string {
    var roleLower := Trim(Lower(role));
    if roleLower == "singer" then labels.singer
    else if roleLower == "producer" then labels.producer
    else if roleLower == "dj" then labels.dj
    else if Contains(roleLower, "singer") && Contains(roleLower, "producer") then labels.singerProducer
    else role
  }

  /** Case and surrounding white space do not matter to the translation of
      `singer`. */
  lemma TranslateSingerNormalises(labels: RoleLabels, before: string, word: string, after: string)
    requires forall k :: 0 <= k < |before| ==> IsSpace(before[k])
    requires forall k :: 0 <= k < |after| ==> IsSpace(after[k])
    requires Lower(word) == "singer"
    ensures TranslateRole(labels, before + word + after) == labels.singer
  {
    var role := before + word + after;
    var l := Lower(role);
    var i, j := |before|, |before| + |word|;
    assert l[i..j] == Lower(word) by {
      forall k | 0 <= k < |word| ensures l[i..j][k] == Lower(word)[k] {
        assert role[i + k] == word[k];
      }
    }
    assert forall k :: 0 <= k < i ==> l[k] == before[k] by {
      forall k | 0 <= k < i ensures l[k] == before[k] {
        assert role[k] == before[k];
      }
    }
    assert forall k :: j <= k < |l| ==> l[k] == after[k - j] by {
      forall k | j <= k < |l| ensures l[k] == after[k - j] {
        assert role[k] == after[k - j];
      }
    }
    assert l[i] == 's' && l[j - 1] == 'r';
    TrimSpec(l, i, j);
  }

  /** ` Singer\n` is translated as `singer`. */
  lemma TranslateRoleNormalises(labels: RoleLabels)
    ensures TranslateRole(labels, " Singer\n") == labels.singer
  {
    var before, word, after := " ", "Singer", "\n";
    assert Lower(word) == "singer";
    assert IsSpace(before[0]) && IsSpace(after[0]);
    assert before + word + after == " Singer\n";
    TranslateSingerNormalises(labels, before, word, after);
  }

  /** A role whose normal form (lower-cased, trimmed) holds both words, and
      is none of the three single roles, gets the combined label, wherever
      the words stand: `Producer & Singer` as well as `singer/producer`. */
  lemma TranslateCombined(labels: RoleLabels, role: string, i: nat, j: nat)
    requires OccursAt(Trim(Lower(role)), "singer", i) && OccursAt(Trim(Lower(role)), "producer", j)
    requires Trim(Lower(role)) != "singer" && Trim(Lower(role)) != "producer" && Trim(Lower(role)) != "dj"
    ensures TranslateRole(labels, role) == labels.singerProducer
  {
    OccursContains(Trim(Lower(role)), "singer", i);
    OccursContains(Trim(Lower(role)), "producer", j);
  }

  /** Every translation is either one of the four labels or the role as
      written; a role that is none of the known ones and lacks one of the
      two words is shown as written. */
  lemma TranslateRoleRange(labels: RoleLabels, role: string)
    ensures var r := TranslateRole(labels, role);
      r == role || r == labels.singer || r == labels.producer || r == labels.dj || r == labels.singerProducer
    ensures var n := Trim(Lower(role));
      n != "singer" && n != "producer" && n != "dj" && (!Contains(n, "singer") || !Contains(n, "producer"))
      ==> TranslateRole(labels, role) == role
  {
  }

  // ---------------------------------------------------------------------
  // The list of roles

  /** The roles in one member's `role`: split on `&`, each piece trimmed,
      empty pieces dropped. */
  function RolePieces(role: string): (r: seq<string>)
    ensures forall k :: 0 <= k < |r| ==> r[k] != ""
  {
    NonEmpty(TrimAll(Split(role, '&')))
  }

  /** `.map((r) => r.trim())` */
  function TrimAll(pieces: seq<string>): (r: seq<string>)
    ensures |r| == |pieces|
    ensures forall k :: 0 <= k < |r| ==> r[k] == Trim(pieces[k])
  {
    seq(|pieces|, k requires 0 <= k < |pieces| => Trim(pieces[k]))
  }

  /** Each listed piece is a trimmed part of the role, between `&`s. */
  lemma RolePieceShape(role: string, x: string)
    requires x in RolePieces(role)
    ensures x != "" && '&' !in x && !IsSpace(x[0]) && !IsSpace(x[|x| - 1])
    ensures exists i :: OccursAt(role, x, i)
  {
    var k := RolePieceOrigin(role, x);
    var p := Split(role, '&')[k];
    assert x == Trim(p) && '&' !in p;
    var i := SplitPieceOccurs(role, '&', k);
    var j := TrimInside(p, '&');
    OccursTrans(role, p, x, i, j);
    assert OccursAt(role, x, i + j);
  }

  /** A listed piece is the trim of a piece of the split. */
  lemma RolePieceOrigin(role: string, x: string) returns (k: nat)
    requires x in RolePieces(role)
    ensures k < |Split(role, '&')| && x == Trim(Split(role, '&')[k]) && x != ""
  {
    var trimmed := TrimAll(Split(role, '&'));
    assert x in trimmed;
    var m :| 0 <= m < |trimmed| && trimmed[m] == x;
    k := m;
  }

  /** The trim of a text lies inside it, so holds no character the text
      does not. */
  lemma TrimInside(p: string, c: char) returns (j: nat)
    requires c !in p
    ensures OccursAt(p, Trim(p), j) && c !in Trim(p)
  {
    var x := Trim(p);
    j := |p| - |TrimStart(p)|;
    forall m | 0 <= m < |x| ensures x[m] != c {
      assert x[m] == p[j..j + |x|][m] == p[j + m];
    }
  }

  /** The elements of a sequence. */
  function Elements(s: seq<string>): set<string> {
    set x | x in s
  }

  /** The roles of a list of members, as a set: every piece of every
      member's role. */
  function RolesOf(members: seq<Member>): set<string> {
    if members == [] then {}
    else RolesOf(members[..|members| - 1]) + Elements(RolePieces(members[|members| - 1].role))
  }

  /** One more member adds its pieces to the roles. */
  lemma RolesOfSnoc(members: seq<Member>, i: nat)
    requires i < |members|
    ensures RolesOf(members[..i + 1]) == RolesOf(members[..i]) + Elements(RolePieces(members[i].role))
  {
    assert members[..i + 1][..i] == members[..i];
  }

  predicate Distinct(s: seq<string>) {
    forall i, j :: 0 <= i < j < |s| ==> s[i] != s[j]
  }

  /** `a < b` for JavaScript strings: code-unit by code-unit, a proper
      prefix coming first. */
  predicate Less(a: string, b: string)
    decreases |a|
  {
    if a == [] then b != []
    else if b == [] then false
    else if a[0] != b[0] then a[0] < b[0]
    else Less(a[1..], b[1..])
  }

  lemma {:induction false} LessIrreflexive(a: string)
    ensures !Less(a, a)
    decreases |a|
  {
    if a != [] {
      LessIrreflexive(a[1..]);
    }
  }

  lemma {:induction false} LessTransitive(a: string, b: string, c: string)
    requires Less(a, b) && Less(b, c)
    ensures Less(a, c)
    decreases |a|
  {
    if a != [] && b != [] && c != [] && a[0] == b[0] && b[0] == c[0] {
      LessTransitive(a[1..], b[1..], c[1..]);
    }
  }

  lemma {:induction false} LessTotal(a: string, b: string)
    requires a != b
    ensures Less(a, b) || Less(b, a)
    decreases |a|
  {
    if a != [] && b != [] && a[0] == b[0] {
      assert a == [a[0]] + a[1..] && b == [b[0]] + b[1..];
      LessTotal(a[1..], b[1..]);
    }
  }

  /** Strictly ascending, so also without duplicates. */
  predicate StrictlySorted(s: seq<string>) {
    forall i, j :: 0 <= i < j < |s| ==> Less(s[i], s[j])
  }

  /** `x` put in its place in an ascending list that does not hold it. */
  function Insert(x: string, s: seq<string>): (r: seq<string>)
    requires StrictlySorted(s) && x !in s
    ensures StrictlySorted(r)
    ensures multiset(r) == multiset(s) + multiset{x}
  {
    if s == [] then [x]
    else if Less(x, s[0]) then
      assert forall y :: y in s ==> Less(x, y) by {
        forall y | y in s ensures Less(x, y) {
          var j :| 0 <= j < |s| && s[j] == y;
          if j > 0 {
            LessTransitive(x, s[0], s[j]);
          }
        }
      }
      ConsSorted(x, s);
      [x] + s
    else
      assert x != s[0];
      LessTotal(x, s[0]);
      assert s == [s[0]] + s[1..];
      var rest := Insert(x, s[1..]);
      HeadBelowRest(s, x, rest);
      ConsSorted(s[0], rest);
      [s[0]] + rest
  }

  /** An element below everything in an ascending list can go in front. */
  lemma ConsSorted(h: string, s: seq<string>)
    requires StrictlySorted(s) && forall y :: y in s ==> Less(h, y)
    ensures StrictlySorted([h] + s)
  {
    var r := [h] + s;
    forall i, j | 0 <= i < j < |r| ensures Less(r[i], r[j]) {
      if i > 0 {
        assert r[i] == s[i - 1] && r[j] == s[j - 1];
      } else {
        assert r[j] == s[j - 1];
        assert s[j - 1] in s;
      }
    }
  }

  /** The head of an ascending list is below everything in its tail with
      `x` added, when it is below `x`. */
  lemma HeadBelowRest(s: seq<string>, x: string, rest: seq<string>)
    requires s != [] && StrictlySorted(s) && Less(s[0], x)
    requires multiset(rest) == multiset(s[1..]) + multiset{x}
    ensures forall y :: y in rest ==> Less(s[0], y)
  {
    forall y | y in rest ensures Less(s[0], y) {
      assert y in multiset(rest);
      if y != x {
        assert y in multiset(s[1..]);
        var j :| 0 <= j < |s[1..]| && s[1..][j] == y;
        assert s[j + 1] == y;
      }
    }
  }

  /** `.sort()` of a list without duplicates: the same elements, ascending. */
  function Sort(s: seq<string>): (r: seq<string>)
    requires Distinct(s)
    ensures StrictlySorted(r)
    ensures multiset(r) == multiset(s)
  {
    if s == [] then []
    else
      assert s == [s[0]] + s[1..];
      var rest := Sort(s[1..]);
      assert s[0] !in multiset(s[1..]);
      Insert(s[0], rest)
  }

  /** `individualRoles.forEach((role) => allRoles.add(role))`: a `Set`
      kept in insertion order, which ignores what it already holds. */
  method AddAll(allRoles: seq<string>, individualRoles: seq<string>) returns (r: seq<string>)
    requires Distinct(allRoles)
    ensures Distinct(r)
    ensures Elements(r) == Elements(allRoles) + Elements(individualRoles)
    ensures |allRoles| <= |r| && r[..|allRoles|] == allRoles
  {
    r := allRoles;
    for k := 0 to |individualRoles|
      invariant Elements(r) == Elements(allRoles) + Elements(individualRoles[..k])
      invariant Distinct(r)
      invariant |allRoles| <= |r| && r[..|allRoles|] == allRoles
    {
      assert individualRoles[..k + 1] == individualRoles[..k] + [individualRoles[k]];
      if individualRoles[k] !in r {
        assert Elements(r + [individualRoles[k]]) == Elements(r) + {individualRoles[k]};
        r := r + [individualRoles[k]];
      }
    }
    assert individualRoles[..|individualRoles|] == individualRoles;
  }

  /** The `roles` memo: every member's role pieces gathered into the set,
      member by member, then listed in ascending order. */
  method Roles(members: seq<Member>) returns (roles: seq<string>)
    ensures Elements(roles) == RolesOf(members)
    ensures StrictlySorted(roles)
  {
    var allRoles: seq<string> := [];
    for i := 0 to |members|
      invariant Elements(allRoles) == RolesOf(members[..i])
      invariant Distinct(allRoles)
    {
      var individualRoles := RolePieces(members[i].role);
      allRoles := AddAll(allRoles, individualRoles);
      RolesOfSnoc(members, i);
    }
    assert members[..|members|] == members;
    roles := Sort(allRoles);
    SameElements(roles, allRoles);
  }

  /** Lists with the same multiset hold the same elements. */
  lemma SameElements(a: seq<string>, b: seq<string>)
    requires multiset(a) == multiset(b)
    ensures Elements(a) == Elements(b)
  {
    forall x ensures x in a <==> x in b {
      assert x in a <==> x in multiset(a);
      assert x in b <==> x in multiset(b);
    }
  }

  /** A role is listed exactly when it is a piece of some member's role. */
  lemma {:induction false} RolesOfMembers(members: seq<Member>, x: string)
    ensures x in RolesOf(members) <==> exists m :: 0 <= m < |members| && x in RolePieces(members[m].role)
    decreases |members|
  {
    if members != [] {
      var init := members[..|members| - 1];
      RolesOfMembers(init, x);
      if x in RolesOf(init) {
        var m :| 0 <= m < |init| && x in RolePieces(init[m].role);
        assert members[m] == init[m];
      }
      if exists m :: 0 <= m < |members| && x in RolePieces(members[m].role) {
        var m :| 0 <= m < |members| && x in RolePieces(members[m].role);
        if m < |members| - 1 {
          assert init[m] == members[m];
        }
      }
    }
  }

  /** A role written as two trimmed roles around ` & `, as `Singer &
      Producer`, holds exactly those two roles, in order. */
  lemma RolePiecesOfPair(a: string, b: string)
    requires a != "" && b != "" && '&' !in a && '&' !in b
    requires !IsSpace(a[0]) && !IsSpace(a[|a| - 1]) && !IsSpace(b[0]) && !IsSpace(b[|b| - 1])
    ensures RolePieces(a + " & " + b) == [a, b]
  {
    SplitPair(a, b);
    TrimPair(a, b);
    NonEmptyAll([a, b]);
  }

  lemma SplitPair(a: string, b: string)
    requires '&' !in a && '&' !in b
    ensures Split(a + " & " + b, '&') == [a + " ", " " + b]
  {
    var left, right := a + " ", " " + b;
    var parts := [left, right];
    assert Join(parts, '&') == a + " & " + b by {
      assert parts[1..] == [right];
    }
    assert '&' !in left && '&' !in right;
    SplitJoin(parts, '&');
  }

  lemma TrimPair(a: string, b: string)
    requires a != "" && b != ""
    requires !IsSpace(a[0]) && !IsSpace(a[|a| - 1]) && !IsSpace(b[0]) && !IsSpace(b[|b| - 1])
    ensures TrimAll([a + " ", " " + b]) == [a, b]
  {
    TrimSpaceAfter(a);
    TrimSpaceBefore(b);
  }

  lemma TrimSpaceAfter(a: string)
    requires a != "" && !IsSpace(a[0]) && !IsSpace(a[|a| - 1])
    ensures Trim(a + " ") == a
  {
    TrimAround("", a, " ");
    assert "" + a + " " == a + " ";
  }

  lemma TrimSpaceBefore(b: string)
    requires b != "" && !IsSpace(b[0]) && !IsSpace(b[|b| - 1])
    ensures Trim(" " + b) == b
  {
    TrimAround(" ", b, "");
    assert " " + b + "" == " " + b;
  }

  // ---------------------------------------------------------------------
  // Filtering

  /** The selected role picks the member: the lower-cased role contains the
      lower-cased selection. */
  predicate Selects(selected: string, member: Member) {
    Contains(Lower(member.role), Lower(selected))
  }

  /** `filteredMembers`: all members without a selection (or with an empty
      one), else the members the selection picks, in their order. */
  function FilteredMembers(members: seq<Member>, selectedRole: Option<string>): (r: seq<Member>)
    ensures selectedRole == None || selectedRole == Some("") ==> r == members
    ensures |r| <= |members|
    ensures forall m :: m in r ==> m in members
    ensures selectedRole.Some? && selectedRole.value != "" ==> forall m :: m in r ==> Selects(selectedRole.value, m)
  {
    match selectedRole
    case None => members
    case Some(role) =>
      if role == "" then members else Filter(members, role)
  }

  function Filter(members: seq<Member>, role: string): (r: seq<Member>)
    ensures |r| <= |members|
    ensures forall m :: m in r <==> m in members && Selects(role, m)
  {
    if members == [] then []
    else
      assert members == [members[0]] + members[1..];
      (if Selects(role, members[0]) then [members[0]] else []) + Filter(members[1..], role)
  }

  /** `filter` keeps order: filtering a concatenation filters each part in
      place. With `FilterSingle`, this fixes the result as the picked
      members in their original order. */
  lemma {:induction false} FilterAppend(a: seq<Member>, b: seq<Member>, role: string)
    ensures Filter(a + b, role) == Filter(a, role) + Filter(b, role)
    decreases |a|
  {
    if a != [] {
      FilterConsAppend(a, b, role);
      FilterCons(a, role);
      FilterAppend(a[1..], b, role);
      ConcatAssoc(if Selects(role, a[0]) then [a[0]] else [], Filter(a[1..], role), Filter(b, role));
    } else {
      assert a + b == b;
    }
  }

  lemma FilterCons(s: seq<Member>, role: string)
    requires s != []
    ensures Filter(s, role) == (if Selects(role, s[0]) then [s[0]] else []) + Filter(s[1..], role)
  {
  }

  lemma FilterConsAppend(a: seq<Member>, b: seq<Member>, role: string)
    requires a != []
    ensures Filter(a + b, role) == (if Selects(role, a[0]) then [a[0]] else []) + Filter(a[1..] + b, role)
  {
    assert (a + b)[0] == a[0];
    assert (a + b)[1..] == a[1..] + b;
    FilterCons(a + b, role);
  }

  lemma MultisetCons(s: seq<Member>)
    requires s != []
    ensures multiset(s) == multiset{s[0]} + multiset(s[1..])
  {
    assert s == [s[0]] + s[1..];
  }

  lemma ConcatAssoc(x: seq<Member>, y: seq<Member>, z: seq<Member>)
    ensures x + (y + z) == (x + y) + z
  {
  }

  /** `filter` neither drops nor repeats a picked member: each occurs as
      often as in the input, and an unpicked one not at all. */
  lemma {:induction false} FilterCount(members: seq<Member>, role: string, m: Member)
    ensures multiset(Filter(members, role))[m] == if Selects(role, m) then multiset(members)[m] else 0
    decreases |members|
  {
    if members != [] {
      FilterCons(members, role);
      FilterCount(members[1..], role, m);
      MultisetCons(members);
    }
  }

  /** One member is kept exactly when the role picks it. */
  lemma FilterSingle(m: Member, role: string)
    ensures Filter([m], role) == if Selects(role, m) then [m] else []
  {
    assert [m][1..] == [];
  }

  /** Filtering keeps exactly the members the role picks. */
  lemma FilterComplete(members: seq<Member>, role: string, m: Member)
    requires role != "" && m in members && Selects(role, m)
    ensures m in FilteredMembers(members, Some(role))
  {
  }

  /** Every listed role picks at least one member: the role is a trimmed
      piece of some member's role, so it occurs, lower-cased, in that
      member's lower-cased role. The "no members for this role" message
      never shows for a role button. */
  lemma EveryRoleSelectsSomeone(members: seq<Member>, x: string)
    requires x in RolesOf(members)
    ensures FilteredMembers(members, Some(x)) != []
  {
    RolesOfMembers(members, x);
    var m :| 0 <= m < |members| && x in RolePieces(members[m].role);
    RolePieceShape(members[m].role, x);
    var i :| OccursAt(members[m].role, x, i);
    LowerOccurs(members[m].role, x, i);
    ContainsIff(Lower(members[m].role), Lower(x));
    FilterComplete(members, x, members[m]);
  }

  // ---------------------------------------------------------------------
  // The URL hash

  /** `s.replace(/\s+/g, "-")`: each run of white space becomes one `-`. */
  function CollapseSpaces(s: string): (r: string)
    ensures forall k :: 0 <= k < |r| ==> !IsSpace(r[k])
    decreases |s|
  {
    if s == [] then []
    else if IsSpace(s[0]) then "-" + CollapseSpaces(TrimStart(s[1..]))
    else [s[0]] + CollapseSpaces(s[1..])
  }

  /** The hash written for a selected role. */
  function Slug(role: string): string {
    CollapseSpaces(Lower(role))
  }

  /** `hash.toLowerCase().replace(/-/g, " ")` */
  function NormalizeHash(hash: string): string {
    var h := Lower(hash);
    seq(|h|, k requires 0 <= k < |h| => if h[k] == '-' then ' ' else h[k])
  }

  /** The test `roles.find` applies to each role. */
  predicate MatchesHash(role: string, hash: string) {
    Lower(role) == NormalizeHash(hash) || Slug(role) == Lower(hash)
  }

  /** The index of the first role from `from` on that matches. */
  function FindFrom(roles: seq<string>, hash: string, from: nat): (r: Option<nat>)
    ensures r.Some? ==> from <= r.value < |roles| && MatchesHash(roles[r.value], hash)
    ensures forall j :: from <= j < |roles| && (r.None? || j < r.value) ==> !MatchesHash(roles[j], hash)
    decreases |roles| - from
  {
    if from >= |roles| then None
    else if MatchesHash(roles[from], hash) then Some(from)
    else FindFrom(roles, hash, from + 1)
  }

  /** The role the hash (without its `#`) selects on load, if any: none for
      an empty hash, else the first role that matches. */
  function ReadHash(roles: seq<string>, hash: string): (r: Option<string>)
    ensures r.Some? ==> hash != "" && exists i :: (0 <= i < |roles| && roles[i] == r.value
      && MatchesHash(roles[i], hash) && forall j :: 0 <= j < i ==> !MatchesHash(roles[j], hash))
    ensures r.None? ==> hash == "" || forall j :: 0 <= j < |roles| ==> !MatchesHash(roles[j], hash)
  {
    if hash == "" then None
    else match FindFrom(roles, hash, 0)
      case Some(i) => Some(roles[i])
      case None => None
  }

  /** The hash the page shows for a selection: the slug of a selected role,
      or none (the bare path) without one. */
  function WrittenHash(selectedRole: Option<string>): (r: Option<string>)
    ensures r.Some? <==> selectedRole.Some? && selectedRole.value != ""
    ensures r.Some? ==> r.value != "" && forall k :: 0 <= k < |r.value| ==> !IsSpace(r.value[k])
  {
    match selectedRole
    case Some(role) => if role != "" then Some(Slug(role)) else None
    case None => None
  }

  /** Text whose only white space is single spaces. */
  predicate IsolatedSpaces(s: string) {
    && (forall k :: 0 <= k < |s| && IsSpace(s[k]) ==> s[k] == ' ')
    && (forall k :: 1 <= k < |s| && s[k] == ' ' ==> s[k - 1] != ' ')
  }

  /** A role without `-`, whose only white space is single spaces. */
  predicate SingleSpaced(s: string) {
    IsolatedSpaces(s) && '-' !in s
  }

  function SpacesToDashes(s: string): (r: string)
    ensures |r| == |s|
  {
    seq(|s|, k requires 0 <= k < |s| => if s[k] == ' ' then '-' else s[k])
  }

  /** For such text, collapsing white space is turning each space into `-`. */
  lemma {:induction false} CollapseIsolated(s: string)
    requires IsolatedSpaces(s)
    ensures CollapseSpaces(s) == SpacesToDashes(s)
    decreases |s|
  {
    if s != [] {
      var t := s[1..];
      assert IsolatedSpaces(t) by {
        forall k | 1 <= k < |t| && t[k] == ' ' ensures t[k - 1] != ' ' {
          assert t[k] == s[k + 1] && t[k - 1] == s[k];
        }
      }
      CollapseIsolated(t);
      if IsSpace(s[0]) {
        SingleSpaceCollapses(s);
      } else {
        assert CollapseSpaces(s) == [s[0]] + CollapseSpaces(t);
      }
      assert SpacesToDashes(s) == [SpacesToDashes(s)[0]] + SpacesToDashes(t);
    }
  }

  /** A space not followed by another one becomes one `-`. */
  lemma SingleSpaceCollapses(s: string)
    requires s != [] && IsSpace(s[0]) && IsolatedSpaces(s)
    ensures CollapseSpaces(s) == "-" + CollapseSpaces(s[1..])
  {
    var t := s[1..];
    assert t != [] ==> t[0] == s[1] && s[1] != ' ' && !IsSpace(t[0]);
    assert TrimStart(t) == t;
  }

  /** The slug of a single-spaced role, and the text a reader recovers
      from it, which is the lower-cased role. */
  lemma SlugOfSingleSpaced(x: string)
    requires SingleSpaced(x)
    ensures Slug(x) == SpacesToDashes(Lower(x))
    ensures Lower(Slug(x)) == Slug(x)
    ensures NormalizeHash(Slug(x)) == Lower(x)
  {
    var l := Lower(x);
    forall k | 0 <= k < |l| ensures IsSpace(l[k]) == IsSpace(x[k]) && (l[k] == ' ') == (x[k] == ' ') && (l[k] == '-') == (x[k] == '-') {
      LowerCharKeeps(x[k]);
    }
    assert SingleSpaced(l);
    CollapseIsolated(l);
    assert Lower(Slug(x)) == Slug(x);
  }

  /** Round trip: with single-spaced roles that differ other than in case,
      the hash written for any of them selects that same role again. */
  lemma HashRoundTrip(roles: seq<string>, i: nat)
    requires i < |roles| && roles[i] != ""
    requires forall j :: 0 <= j < |roles| ==> SingleSpaced(roles[j])
    requires forall j, k :: 0 <= j < k < |roles| ==> Lower(roles[j]) != Lower(roles[k])
    ensures WrittenHash(Some(roles[i])) == Some(Slug(roles[i]))
    ensures ReadHash(roles, WrittenHash(Some(roles[i])).value) == Some(roles[i])
  {
    var x := roles[i];
    SlugOfSingleSpaced(x);
    assert Slug(x) != "";
    forall j | 0 <= j < |roles| && MatchesHash(roles[j], Slug(x))
      ensures j == i
    {
      SlugOfSingleSpaced(roles[j]);
      if Slug(roles[j]) == Slug(x) {
        var a, b := Lower(roles[j]), Lower(x);
        forall k | 0 <= k < |a| ensures a[k] == b[k] {
          assert SpacesToDashes(a)[k] == SpacesToDashes(b)[k];
        }
      }
      assert Lower(roles[j]) == Lower(x);
    }
  }

  /** Without the single-spacing, the hash of a role may select another:
      `a - b` is written as `a---b`, which reads back as `a   b`. */
  lemma HashCollision()
    ensures Slug("a - b") == "a---b"
    ensures ReadHash(["a   b", "a - b"], "a---b") == Some("a   b")
  {
    CollisionSlugOf("a - b");
    CollisionNormal();
    assert MatchesHash("a   b", "a---b");
  }

  lemma CollisionSlugOf(s: string)
    requires s == "a - b"
    ensures Slug(s) == "a---b"
  {
    assert s[0] == 'a' && s[1] == ' ' && s[2] == '-' && s[3] == ' ' && s[4] == 'b';
    assert Lower(s) == s;
    assert IsolatedSpaces(s);
    CollapseIsolated(s);
    assert SpacesToDashes(s) == "a---b";
  }

  lemma CollisionNormal()
    ensures NormalizeHash("a---b") == "a   b"
    ensures Lower("a   b") == "a   b"
  {
    assert Lower("a---b") == "a---b";
  }

  /** The role filter's state, `selectedRole`. */
  class RoleFilter {
    var selectedRole: Option<string>

    constructor()
      ensures selectedRole == None
    {
      selectedRole := None;
    }

    /** A role button: the active role is cleared, any other is selected. */
    method ClickRole(role: string)
      modifies this
      ensures selectedRole == Toggle(old(selectedRole), role)
    {
      var isActive := selectedRole == Some(role);
      selectedRole := if isActive then None else Some(role);
    }

    /** The "All" button. */
    method ShowAll()
      modifies this
      ensures selectedRole == None
    {
      selectedRole := None;
    }

    /** The hash effect on load: a matching role is selected, else the
        selection stays. */
    method ApplyHash(roles: seq<string>, hash: string)
      modifies this
      ensures selectedRole == if ReadHash(roles, hash).Some? then ReadHash(roles, hash) else old(selectedRole)
    {
      if hash != "" {
        var matching := ReadHash(roles, hash);
        if matching.Some? {
          selectedRole := matching;
        }
      }
    }
  }

  /** The selection after clicking `role`. */
  function Toggle(selectedRole: Option<string>, role: string): (r: Option<string>)
    ensures r == Some(role) <==> selectedRole != Some(role)
    ensures r == None || r == Some(role)
  {
    if selectedRole == Some(role) then None else Some(role)
  }

  /** Clicking a role twice from no selection, or from that role, comes back
      to where it started. */
  lemma ToggleTwice(selectedRole: Option<string>, role: string)
    requires selectedRole == None || selectedRole == Some(role)
    ensures Toggle(Toggle(selectedRole, role), role) == selectedRole
  {
  }

  // ---------------------------------------------------------------------
  // The carousel

  /** `member.carousel || [member.headshot]`: an absent list gives the
      headshot alone; a present one (even empty) is used as is. */
  function CarouselImages(member: Member): (r: seq<string>)
    ensures member.carousel.None? ==> r == [member.headshot]
    ensures member.carousel.Some? ==> r == member.carousel.value
  {
    member.carousel.GetOr([member.headshot])
  }

  function NextIndex(i: int, n: nat): (r: int)
    requires 0 <= i < n
    ensures 0 <= r < n
  {
    (i + 1) % n
  }

  function PreviousIndex(i: int, n: nat): (r: int)
    requires 0 <= i < n
    ensures 0 <= r < n
  {
    (i - 1 + n) % n
  }

  /** Next and previous undo each other. */
  lemma NextPreviousInverse(i: int, n: nat)
    requires 0 <= i < n
    ensures PreviousIndex(NextIndex(i, n), n) == i
    ensures NextIndex(PreviousIndex(i, n), n) == i
  {
    ModInRange(i + 1, n);
    var j := NextIndex(i, n);
    ModInRange(j - 1 + n, n);
    ModInRange(i - 1 + n, n);
    var k := PreviousIndex(i, n);
    ModInRange(k + 1, n);
  }

  /** `a % n` for `0 <= a < 2n`. */
  lemma ModInRange(a: int, n: int)
    requires n > 0 && 0 <= a < 2 * n
    ensures a % n == if a < n then a else a - n
  {
    var q := a / n;
    assert a == q * n + a % n;
  }

  /** Next wraps from the last image to the first, previous from the first
      to the last. */
  lemma CarouselWraps(n: nat)
    requires n > 0
    ensures NextIndex(n - 1, n) == 0
    ensures PreviousIndex(0, n) == n - 1
  {
  }

  /** One member card's carousel: its images and `currentImageIndex`. */
  class Carousel {
    const images: seq<string>
    var index: int

    /** The index shows one of the images (or is 0 when there is none). */
    ghost predicate Valid()
      reads this
    {
      if |images| == 0 then index == 0 else 0 <= index < |images|
    }

    constructor(member: Member)
      ensures images == CarouselImages(member) && index == 0 && Valid()
    {
      images := CarouselImages(member);
      index := 0;
    }

    /** `hasMultipleImages` */
    predicate HasMultipleImages()
      reads this
    {
      |images| > 1
    }

    /** `handleNext`; its button is only shown with several images. */
    method Next()
      requires Valid() && HasMultipleImages()
      modifies this
      ensures Valid() && index == NextIndex(old(index), |images|)
    {
      index := (index + 1) % |images|;
    }

    /** `handlePrevious`; its button is only shown with several images. */
    method Previous()
      requires Valid() && HasMultipleImages()
      modifies this
      ensures Valid() && index == PreviousIndex(old(index), |images|)
    {
      index := (index - 1 + |images|) % |images|;
    }

    /** One tick of the three-second auto-rotation, which only runs with
        several images. */
    method Tick()
      requires Valid()
      modifies this
      ensures Valid()
      ensures index == if HasMultipleImages() then NextIndex(old(index), |images|) else old(index)
    {
      if |images| > 1 {
        index := (index + 1) % |images|;
      }
    }

    /** A dot button, shown with several images: `setCurrentImageIndex`
        with the dot's own index, so that dot is the highlighted one. */
    method Select(k: nat)
      requires Valid() && HasMultipleImages() && k < |images|
      modifies this
      ensures Valid() && index == k
    {
      index := k;
    }

    /** Back to the first image when the member changes. */
    method Reset()
      requires Valid()
      modifies this
      ensures Valid() && index == 0
    {
      index := 0;
    }
  }

  // ---------------------------------------------------------------------
  // The Instagram link

  const InstagramPrefix: string := "https://www.instagram.com/"

  /** `getInstagramUrl`: `#` without a handle, else the profile URL of the
      handle with its first `@` removed. */
  function InstagramUrl(handle: Option<string>): (r: string)
    ensures handle == None || handle == Some("") ==> r == "#"
  {
    match handle
    case None => "#"
    case Some(h) =>
      if h == "" then "#" else InstagramPrefix + ReplaceFirst(h, "@", "") + "/"
  }

  /** The handle a profile URL names: what lies between the prefix and the
      final `/`. */
  function HandleOfUrl(url: string): Option<string> {
    if StartsWith(url, InstagramPrefix) && |url| > |InstagramPrefix| && url[|url| - 1] == '/'
    then Some(url[|InstagramPrefix|..|url| - 1])
    else None
  }

  /** Round trip: the URL of a handle without `@` names that handle, and a
      leading `@` is dropped. */
  lemma InstagramRoundTrip(h: string)
    requires h != "" && '@' !in h
    ensures HandleOfUrl(InstagramUrl(Some(h))) == Some(h)
    ensures InstagramUrl(Some("@" + h)) == InstagramUrl(Some(h))
  {
    AbsentChar(h, '@');
    ReplaceFirstAtStart("@" + h, "@");
    assert ("@" + h)[1..] == h;
    var url := InstagramPrefix + h + "/";
    assert url[..|InstagramPrefix|] == InstagramPrefix;
    assert url[|InstagramPrefix|..|url| - 1] == h;
  }
}

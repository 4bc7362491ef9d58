/** The engine of RBAC.java: it loads the role hierarchy, the objects, the
    permissions, the separation-of-duty constraints and the user-role
    assignments into its tables, and answers queries about a user's rights.
    The tables are fields the loaders update in place. */
module Rbac {
  import opened RbacSpec

  /** What a loader reports: success, or the error it prints before asking
      for the file to be read again. */
  datatype Outcome =
    | Loaded
    | InvalidLine(line: int)
    | DuplicateObject(name: string)
    | DuplicateUser(line: int)
    | ConstraintViolated(line: int)
    /** A user line lists a role the role table lacks: the source throws an
        IndexOutOfBoundsException and the program ends. */
    | RoleNotFound(line: int)

  /** The answer to one query. */
  datatype Answer =
    | InvalidUser
    | InvalidObject
    | Permissions(entries: seq<Entry>)
    | ObjectPermissions(cells: seq<Cell>)
    | Decision(authorized: bool)

  /** Some bound of a non-empty set of bounds, in whichever order the
      source's map hands them out. */
  method PickBound(bounds: set<int>) returns (n: int)
    requires bounds != {}
    ensures n in bounds
  {
    SomeBound(bounds);
    n :| n in bounds;
  }

  /** `n == 2` counts the entries of `listed` that are members. */
  method CountMembers(listed: seq<string>, members: seq<string>) returns (count: nat)
    ensures count == CountIn(listed, members)
  {
    count := 0;
    for t := 0 to |listed|
      invariant count == CountIn(listed[..t], members)
    {
      assert listed[..t + 1][..t] == listed[..t];
      if listed[t] in members {
        count := count + 1;
      }
    }
    assert listed[..|listed|] == listed;
  }

  /** `n > 2` counts the rows that mark column `j`. */
  method CountHolders(rows: seq<seq<bool>>, j: int) returns (count: nat)
    requires 0 <= j && forall k :: 0 <= k < |rows| ==> j < |rows[k]|
    ensures count == Holders(rows, j)
  {
    count := 0;
    for i := 0 to |rows|
      invariant count == Holders(rows[..i], j)
    {
      assert rows[..i + 1][..i] == rows[..i];
      if rows[i][j] {
        count := count + 1;
      }
    }
    assert rows[..|rows|] == rows;
  }

  class Engine {
    /** Each descendant role with the list of its ascendants. */
    var roleHierarchy: Hierarchy
    var allRoles: seq<string>
    var allObjects: seq<string>
    /** Rows are roles; columns are the roles, then the objects. */
    var roleObjectMatrix: Matrix
    /** The role set of each bound n. */
    var roleConstraints: Constraints
    var allUsers: seq<string>
    /** One row per user; `true` where the source stores "+". */
    var userRoleMatrix: seq<seq<bool>>

    constructor()
      ensures roleHierarchy == map[] && allRoles == [] && allObjects == [] && roleObjectMatrix == []
      ensures roleConstraints == map[] && allUsers == [] && userRoleMatrix == []
    {
      roleHierarchy := map[];
      allRoles := [];
      allObjects := [];
      roleObjectMatrix := [];
      roleConstraints := map[];
      allUsers := [];
      userRoleMatrix := [];
    }

    /** The role-object matrix has a row per role and a column per role and
        object, and the user table matches the user-role matrix. */
    predicate Tables()
      reads this
    {
      Shaped(roleObjectMatrix, |allRoles|, |allRoles| + |allObjects|) &&
      |allUsers| == |userRoleMatrix| &&
      forall k :: 0 <= k < |userRoleMatrix| ==> |userRoleMatrix[k]| == |allRoles|
    }

    // -------------------------------------------------------------------
    // Loading

    /** `parseRoleHierarchy` on the lines of roleHierarchy.txt. `roleOrder`
        is the order in which the set of the roles named is copied into the
        role table. The map is rebuilt line by line; on the first line whose
        ascendant already occurred the load stops there with the map of the
        lines before it and the role table untouched. */
    method ParseRoleHierarchy(lines: seq<Line>, roleOrder: seq<string>) returns (outcome: Outcome)
      requires HierarchyLines(lines)
      requires NoDuplicates(roleOrder) && (set r | r in roleOrder) == RolesIn(lines)
      modifies this`roleHierarchy, this`allRoles
      ensures outcome == Loaded <==> DistinctAscendants(lines)
      ensures outcome == Loaded ==>
        roleHierarchy == HierarchyOf(lines) && allRoles == roleOrder && RolesCover(roleHierarchy, allRoles)
      ensures outcome != Loaded ==>
        outcome.InvalidLine? && FirstRepeatedAscendant(lines, outcome.line - 1) &&
        roleHierarchy == HierarchyOf(lines[..outcome.line - 1]) && allRoles == old(allRoles)
    {
      roleHierarchy := map[];
      var ascendantRoles: set<string> := {};
      for k := 0 to |lines|
        invariant DistinctAscendants(lines[..k])
        invariant ascendantRoles == set i | 0 <= i < k :: lines[i][0]
        invariant roleHierarchy == HierarchyOf(lines[..k])
        invariant allRoles == old(allRoles)
      {
        var ascendantRole := lines[k][0];
        var descendantRole := lines[k][1];
        if ascendantRole in ascendantRoles {
          outcome := InvalidLine(k + 1);
          assert FirstRepeatedAscendant(lines, k);
          return;
        }
        assert lines[..k + 1][..k] == lines[..k];
        ascendantRoles := ascendantRoles + {ascendantRole};
        var descendantRoleHierarchy := if descendantRole in roleHierarchy then roleHierarchy[descendantRole] else [];
        roleHierarchy := roleHierarchy[descendantRole := descendantRoleHierarchy + [ascendantRole]];
      }
      assert lines[..|lines|] == lines;
      HierarchyRoles(lines);
      allRoles := roleOrder;
      outcome := Loaded;
    }

    /** `parseResourceObjects` on the names of resourceObjects.txt, with
        `objectOrder` the order in which their set is copied into the object
        table. The first repeated name is reported and the table is left as
        it was. */
    method ParseResourceObjects(objects: seq<string>, objectOrder: seq<string>) returns (outcome: Outcome)
      requires NoDuplicates(objectOrder) && (set o | o in objectOrder) == (set o | o in objects)
      modifies this`allObjects
      ensures outcome == Loaded <==> NoDuplicates(objects)
      ensures outcome == Loaded ==> allObjects == objectOrder
      ensures outcome != Loaded ==>
        outcome.DuplicateObject? && allObjects == old(allObjects) &&
        exists k :: FirstRepeat(objects, k) && outcome.name == objects[k]
    {
      var uniqueObjects: set<string> := {};
      for k := 0 to |objects|
        invariant NoDuplicates(objects[..k])
        invariant uniqueObjects == set i | 0 <= i < k :: objects[i]
      {
        var name := objects[k];
        if name in uniqueObjects {
          assert FirstRepeat(objects, k);
          outcome := DuplicateObject(name);
          return;
        }
        uniqueObjects := uniqueObjects + {name};
      }
      assert objects[..|objects|] == objects;
      allObjects := objectOrder;
      outcome := Loaded;
    }

    /** `createRoleObjectMatrix`: an empty cell for every role and every role
        or object. */
    method CreateRoleObjectMatrix()
      modifies this`roleObjectMatrix
      ensures roleObjectMatrix == EmptyMatrix(|allRoles|, |allRoles| + |allObjects|)
    {
      var numRows := |allRoles|;
      var numColumns := |allRoles| + |allObjects|;
      var rows: Matrix := [];
      for i := 0 to numRows
        invariant |rows| == i && forall k :: 0 <= k < i ==> rows[k] == seq(numColumns, _ => [])
      {
        var columns: seq<Cell> := [];
        for j := 0 to numColumns
          invariant columns == seq(j, _ => [])
        {
          columns := columns + [[]];
        }
        rows := rows + [columns];
      }
      assert forall k :: 0 <= k < numRows ==> rows[k] == EmptyMatrix(numRows, numColumns)[k];
      roleObjectMatrix := rows;
    }

    /** `getDescendants`: every role below `role`, found by walking the keys
        whose ascendant list holds `role` and their own descendants. It only
        ends on a hierarchy without cycles. */
    method GetDescendants(role: string) returns (descendants: seq<string>)
      requires Acyclic(roleHierarchy)
      ensures forall d :: d in descendants <==> d in Descendants(roleHierarchy, role)
      decreases RankOf(roleHierarchy, role)
    {
      descendants := [];
      var left := roleHierarchy.Keys;
      while left != {}
        invariant left <= roleHierarchy.Keys
        invariant forall d :: d in descendants <==> d in Via(roleHierarchy, role, roleHierarchy.Keys - left)
        decreases left
      {
        var key :| key in left;
        ViaGrows(roleHierarchy, role, roleHierarchy.Keys - left, key);
        if role in roleHierarchy[key] {
          var below := GetDescendants(key);
          descendants := descendants + [key] + below;
        }
        assert roleHierarchy.Keys - (left - {key}) == (roleHierarchy.Keys - left) + {key};
        left := left - {key};
      }
      assert roleHierarchy.Keys - left == roleHierarchy.Keys;
    }

    /** `addPermission`: grants the label to `role` on the column `target`
        selects, unless that cell already holds it. */
    method AddPermission(role: string, target: string, permission: string)
      requires role in allRoles && Shaped(roleObjectMatrix, |allRoles|, |allRoles| + |allObjects|)
      modifies this`roleObjectMatrix
      ensures roleObjectMatrix ==
        Granted(old(roleObjectMatrix), IndexOf(allRoles, role), ColumnIndex(allRoles, allObjects, target), permission)
    {
      var roleIndex := IndexOf(allRoles, role);
      var objectIndex := ColumnIndex(allRoles, allObjects, target);
      var rows := roleObjectMatrix;
      var columns := rows[roleIndex];
      var permissions := columns[objectIndex];
      if permission !in permissions {
        permissions := permissions + [permission];
        columns := columns[objectIndex := permissions];
        rows := rows[roleIndex := columns];
      } else {
        assert columns[objectIndex := permissions] == columns;
        assert rows[roleIndex := columns] == rows;
      }
      roleObjectMatrix := rows;
    }

    /** The grants `addDefaultPermissions` makes for the role of column `r`:
        it controls itself, then each descendant controls and owns it. */
    method GrantDefaults(r: int)
      requires 0 <= r < |allRoles| && NoDuplicates(allRoles)
      requires Acyclic(roleHierarchy) && RolesCover(roleHierarchy, allRoles)
      requires Shaped(roleObjectMatrix, |allRoles|, |allRoles| + |allObjects|)
      modifies this`roleObjectMatrix
      ensures Gains(old(roleObjectMatrix), roleObjectMatrix, r,
                    ColumnDefaults(allRoles, r, Descendants(roleHierarchy, allRoles[r])))
    {
      ghost var m0 := roleObjectMatrix;
      var role := allRoles[r];
      IndexOfDistinct(allRoles, r);
      assert ColumnIndex(allRoles, allObjects, role) == r;
      GainsNothing(m0, r);
      GainsGranted(m0, m0, r, NoGains(|m0|), r, "control");
      ColumnDefaultsStart(allRoles, r);
      AddPermission(role, role, "control");
      GrantDescendantsDefaults(m0, r);
    }

    /** The inner loop of `addDefaultPermissions`: each descendant of the
        role of column `r` controls and then owns it. */
    method GrantDescendantsDefaults(ghost m0: Matrix, r: int)
      requires 0 <= r < |allRoles| && NoDuplicates(allRoles)
      requires Acyclic(roleHierarchy) && RolesCover(roleHierarchy, allRoles)
      requires Shaped(m0, |allRoles|, |allRoles| + |allObjects|)
      requires Gains(m0, roleObjectMatrix, r, ColumnDefaults(allRoles, r, {}))
      modifies this`roleObjectMatrix
      ensures Gains(m0, roleObjectMatrix, r, ColumnDefaults(allRoles, r, Descendants(roleHierarchy, allRoles[r])))
    {
      var role := allRoles[r];
      var ds := GetDescendants(role);
      ghost var seen: set<string> := {};
      for t := 0 to |ds|
        invariant Gains(m0, roleObjectMatrix, r, ColumnDefaults(allRoles, r, seen))
        invariant forall x :: x in seen <==> x in ds[..t]
      {
        DescendantsAreRoles(roleHierarchy, allRoles, role, ds[t]);
        DescendantsBelow(roleHierarchy, role, ds[t]);
        GrantDefaultsTo(m0, seen, ds[t], r);
        assert ds[..t + 1] == ds[..t] + [ds[t]];
        seen := seen + {ds[t]};
      }
      assert ds[..|ds|] == ds;
      assert seen == Descendants(roleHierarchy, role);
    }

    /** One turn of that loop: the descendant `x` controls, then owns, the
        role of column `r`. */
    method GrantDefaultsTo(ghost m0: Matrix, ghost seen: set<string>, x: string, r: int)
      requires 0 <= r < |allRoles| && NoDuplicates(allRoles) && x in allRoles && x != allRoles[r]
      requires Shaped(m0, |allRoles|, |allRoles| + |allObjects|)
      requires Gains(m0, roleObjectMatrix, r, ColumnDefaults(allRoles, r, seen))
      modifies this`roleObjectMatrix
      ensures Gains(m0, roleObjectMatrix, r, ColumnDefaults(allRoles, r, seen + {x}))
    {
      var role := allRoles[r];
      IndexOfDistinct(allRoles, r);
      assert ColumnIndex(allRoles, allObjects, role) == r;
      ghost var d := IndexOf(allRoles, x);
      ghost var g := ColumnDefaults(allRoles, r, seen);
      GainsGranted(m0, roleObjectMatrix, r, g, d, "control");
      AddPermission(x, role, "control");
      GainsGranted(m0, roleObjectMatrix, r, g[d := AddLabel(g[d], "control")], d, "own");
      AddPermission(x, role, "own");
      ColumnDefaultsStep(allRoles, r, seen, x);
      assert g[d := AddLabel(g[d], "control")][d := AddLabel(AddLabel(g[d], "control"), "own")] ==
        g[d := AddLabel(AddLabel(g[d], "control"), "own")];
    }

    /** `addDefaultPermissions`: role by role, the role controls itself and
        then each descendant controls and owns it. Each cell gets its default
        labels appended, in that order, after the labels it held. */
    method AddDefaultPermissions()
      requires NoDuplicates(allRoles) && Acyclic(roleHierarchy) && RolesCover(roleHierarchy, allRoles)
      requires Shaped(roleObjectMatrix, |allRoles|, |allRoles| + |allObjects|)
      modifies this`roleObjectMatrix
      ensures DefaultsUpTo(roleHierarchy, allRoles, allObjects, old(roleObjectMatrix), roleObjectMatrix, |allRoles|)
      ensures Extends(old(roleObjectMatrix), roleObjectMatrix)
      ensures CellsDistinct(old(roleObjectMatrix)) ==> CellsDistinct(roleObjectMatrix)
      ensures forall i, j, p :: 0 <= i < |allRoles| && 0 <= j < |allRoles| + |allObjects| ==>
        (p in roleObjectMatrix[i][j] <==>
          p in old(roleObjectMatrix)[i][j] || (j < |allRoles| && DefaultAt(roleHierarchy, allRoles, i, j, p)))
    {
      for r := 0 to |allRoles|
        invariant DefaultsUpTo(roleHierarchy, allRoles, allObjects, old(roleObjectMatrix), roleObjectMatrix, r)
      {
        ghost var before := roleObjectMatrix;
        GrantDefaults(r);
        DefaultsOneMore(roleHierarchy, allRoles, allObjects, old(roleObjectMatrix), before, roleObjectMatrix, r);
      }
      DefaultsFacts(roleHierarchy, allRoles, allObjects, old(roleObjectMatrix), roleObjectMatrix);
    }

    /** One line of permissionsToRoles.txt: the label goes to `role` and then
        to every descendant of it, on the column `target` selects. */
    method GrantPermission(role: string, permission: string, target: string)
      requires role in allRoles && NoDuplicates(allRoles)
      requires Acyclic(roleHierarchy) && RolesCover(roleHierarchy, allRoles)
      requires Shaped(roleObjectMatrix, |allRoles|, |allRoles| + |allObjects|)
      modifies this`roleObjectMatrix
      ensures Gains(old(roleObjectMatrix), roleObjectMatrix, ColumnIndex(allRoles, allObjects, target),
                    LineGains(allRoles, role, permission, Descendants(roleHierarchy, role)))
    {
      ghost var m0 := roleObjectMatrix;
      ghost var col := ColumnIndex(allRoles, allObjects, target);
      GainsNothing(m0, col);
      GainsGranted(m0, m0, col, NoGains(|m0|), IndexOf(allRoles, role), permission);
      LineGainsStart(allRoles, role, permission);
      AddPermission(role, target, permission);
      GrantDescendantsPermission(m0, role, permission, target);
    }

    /** The inner loop of `parsePermissions`: each descendant of `role` gets
        the label too. */
    method GrantDescendantsPermission(ghost m0: Matrix, role: string, permission: string, target: string)
      requires role in allRoles && NoDuplicates(allRoles)
      requires Acyclic(roleHierarchy) && RolesCover(roleHierarchy, allRoles)
      requires Shaped(m0, |allRoles|, |allRoles| + |allObjects|)
      requires Gains(m0, roleObjectMatrix, ColumnIndex(allRoles, allObjects, target), LineGains(allRoles, role, permission, {}))
      modifies this`roleObjectMatrix
      ensures Gains(m0, roleObjectMatrix, ColumnIndex(allRoles, allObjects, target),
                    LineGains(allRoles, role, permission, Descendants(roleHierarchy, role)))
    {
      var ds := GetDescendants(role);
      ghost var seen: set<string> := {};
      for t := 0 to |ds|
        invariant Gains(m0, roleObjectMatrix, ColumnIndex(allRoles, allObjects, target), LineGains(allRoles, role, permission, seen))
        invariant forall x :: x in seen <==> x in ds[..t]
      {
        DescendantsAreRoles(roleHierarchy, allRoles, role, ds[t]);
        GrantPermissionTo(m0, seen, role, ds[t], permission, target);
        assert ds[..t + 1] == ds[..t] + [ds[t]];
        seen := seen + {ds[t]};
      }
      assert ds[..|ds|] == ds;
      assert seen == Descendants(roleHierarchy, role);
    }

    /** One turn of that loop: the descendant `x` gets the label. */
    method GrantPermissionTo(ghost m0: Matrix, ghost seen: set<string>, ghost role: string, x: string,
                             permission: string, target: string)
      requires NoDuplicates(allRoles) && x in allRoles
      requires Shaped(m0, |allRoles|, |allRoles| + |allObjects|)
      requires Gains(m0, roleObjectMatrix, ColumnIndex(allRoles, allObjects, target), LineGains(allRoles, role, permission, seen))
      modifies this`roleObjectMatrix
      ensures Gains(m0, roleObjectMatrix, ColumnIndex(allRoles, allObjects, target), LineGains(allRoles, role, permission, seen + {x}))
    {
      GainsGranted(m0, roleObjectMatrix, ColumnIndex(allRoles, allObjects, target),
                   LineGains(allRoles, role, permission, seen), IndexOf(allRoles, x), permission);
      LineGainsStep(allRoles, role, permission, seen, x);
      AddPermission(x, target, permission);
    }

    /** `parsePermissions` on the lines of permissionsToRoles.txt: each cell
        gets the labels the lines grant there, to its role or to an
        ascendant of its role, appended in line order after those it held. */
    method ParsePermissions(lines: seq<Line>)
      requires PermissionLines(lines) && forall k :: 0 <= k < |lines| ==> lines[k][0] in allRoles
      requires NoDuplicates(allRoles) && Acyclic(roleHierarchy) && RolesCover(roleHierarchy, allRoles)
      requires Shaped(roleObjectMatrix, |allRoles|, |allRoles| + |allObjects|)
      modifies this`roleObjectMatrix
      ensures PermissionsUpTo(roleHierarchy, allRoles, allObjects, lines, old(roleObjectMatrix), roleObjectMatrix)
      ensures Extends(old(roleObjectMatrix), roleObjectMatrix)
      ensures CellsDistinct(old(roleObjectMatrix)) ==> CellsDistinct(roleObjectMatrix)
      ensures forall i, j, p :: 0 <= i < |allRoles| && 0 <= j < |allRoles| + |allObjects| ==>
        (p in roleObjectMatrix[i][j] <==>
          p in old(roleObjectMatrix)[i][j] || Permitted(roleHierarchy, allRoles, allObjects, lines, i, j, p))
    {
      for k := 0 to |lines|
        invariant PermissionsUpTo(roleHierarchy, allRoles, allObjects, lines[..k], old(roleObjectMatrix), roleObjectMatrix)
      {
        var role := lines[k][0];
        var permission := lines[k][1];
        var target := lines[k][2];
        ghost var before := roleObjectMatrix;
        GrantPermission(role, permission, target);
        PermissionsOneMore(roleHierarchy, allRoles, allObjects, lines, k, old(roleObjectMatrix), before, roleObjectMatrix);
      }
      assert lines[..|lines|] == lines;
      PermissionsFacts(roleHierarchy, allRoles, allObjects, lines, old(roleObjectMatrix), roleObjectMatrix);
    }

    /** `parseConstraints` on the lines of roleSetsSSD.txt: each role set is
        put under its bound, a later line replacing an earlier one with the
        same bound; the first bound below 2 stops the load there. */
    method ParseConstraints(lines: seq<ConstraintLine>) returns (outcome: Outcome)
      modifies this`roleConstraints
      ensures outcome == Loaded <==> BoundsValid(lines)
      ensures outcome == Loaded ==> roleConstraints == ConstraintsOf(lines)
      ensures outcome != Loaded ==>
        outcome.InvalidLine? && 1 <= outcome.line <= |lines| &&
        BoundsValid(lines[..outcome.line - 1]) && lines[outcome.line - 1].n < 2 &&
        roleConstraints == ConstraintsOf(lines[..outcome.line - 1])
    {
      roleConstraints := map[];
      for k := 0 to |lines|
        invariant BoundsValid(lines[..k])
        invariant roleConstraints == ConstraintsOf(lines[..k])
      {
        var n := lines[k].n;
        if n < 2 {
          outcome := InvalidLine(k + 1);
          return;
        }
        assert lines[..k + 1][..k] == lines[..k];
        roleConstraints := roleConstraints[n := lines[k].roles];
      }
      assert lines[..|lines|] == lines;
      outcome := Loaded;
    }

    /** Whether a constraint naming `role` is broken by a user listing
        `listed` after the users already in the user-role matrix. */
    method RoleBreaksConstraint(role: string, listed: seq<string>) returns (broken: bool)
      requires role in allRoles
      requires forall k :: 0 <= k < |userRoleMatrix| ==> |userRoleMatrix[k]| == |allRoles|
      ensures broken <==> RoleBreaks(roleConstraints, allRoles, userRoleMatrix, listed, role)
    {
      var roleIndex := IndexOf(allRoles, role);
      var left := roleConstraints.Keys;
      while left != {}
        invariant left <= roleConstraints.Keys
        invariant forall n :: n in roleConstraints.Keys - left && role in roleConstraints[n] ==>
          !Breaks(n, roleConstraints[n], userRoleMatrix, listed, roleIndex)
        decreases left
      {
        var bound := PickBound(left);
        if role in roleConstraints[bound] {
          var hasConstraintError: bool;
          if bound == 2 {
            var numMutuallyExclusive := CountMembers(listed, roleConstraints[bound]);
            hasConstraintError := numMutuallyExclusive > 1;
          } else {
            var holders := CountHolders(userRoleMatrix, roleIndex);
            hasConstraintError := 1 + holders > bound;
          }
          if hasConstraintError {
            return true;
          }
        }
        left := left - {bound};
      }
      broken := false;
    }

    /** The constraint loop of `parseUserRoles` for a role the role table
        lacks, whose index is -1. A constraint with n == 2 counts the line's
        members as for any role; with another n the source reads index -1 of
        the first earlier row and throws, or, with no earlier row, compares
        the user alone with n. When no constraint stops the role, the source
        throws when it marks index -1. */
    method UnknownRoleCheck(role: string, listed: seq<string>) returns (why: Rejection)
      requires role !in allRoles
      ensures StopWhy(roleConstraints, allRoles, userRoleMatrix, listed, role, why)
    {
      var left := roleConstraints.Keys;
      while left != {}
        invariant left <= roleConstraints.Keys
        invariant forall n :: n in roleConstraints.Keys - left && role in roleConstraints[n] ==>
          (n == 2 ==> CountIn(listed, roleConstraints[n]) <= 1) && (n != 2 ==> userRoleMatrix == [] && 1 <= n)
        decreases left
      {
        var bound := PickBound(left);
        if role in roleConstraints[bound] {
          if bound == 2 {
            var numMutuallyExclusive := CountMembers(listed, roleConstraints[bound]);
            if numMutuallyExclusive > 1 {
              assert UnknownBreaks(roleConstraints, userRoleMatrix, listed, role) by {
                assert bound in roleConstraints && role in roleConstraints[bound];
              }
              return BrokenConstraint;
            }
          } else {
            if |userRoleMatrix| > 0 {
              assert UnknownFaults(roleConstraints, userRoleMatrix, role) by {
                assert bound in roleConstraints && role in roleConstraints[bound];
              }
              return UnknownRole;
            }
            if 1 > bound {
              assert UnknownBreaks(roleConstraints, userRoleMatrix, listed, role) by {
                assert bound in roleConstraints && role in roleConstraints[bound];
              }
              return BrokenConstraint;
            }
          }
        }
        left := left - {bound};
      }
      why := UnknownRole;
    }

    /** The row a user's line adds to the user-role matrix. Its roles are
        checked in line order, as the source checks them; the first role
        that stops the line rejects it, with the reason the source gives. */
    method UserRow(listed: seq<string>) returns (stopped: bool, why: Rejection, roleStatuses: seq<bool>)
      requires NoDuplicates(allRoles)
      requires forall k :: 0 <= k < |userRoleMatrix| ==> |userRoleMatrix[k]| == |allRoles|
      ensures stopped ==>
        exists t :: 0 <= t < |listed| && FirstStop(roleConstraints, allRoles, userRoleMatrix, listed, t) &&
          StopWhy(roleConstraints, allRoles, userRoleMatrix, listed, listed[t], why)
      ensures !stopped ==>
        (forall r :: r in listed ==> !RoleStops(roleConstraints, allRoles, userRoleMatrix, listed, r)) &&
        roleStatuses == Statuses(allRoles, listed)
    {
      roleStatuses := seq(|allRoles|, _ => false);
      why := BrokenConstraint;
      for t := 0 to |listed|
        invariant |roleStatuses| == |allRoles|
        invariant forall j :: 0 <= j < |allRoles| ==> (roleStatuses[j] <==> allRoles[j] in listed[..t])
        invariant forall u :: 0 <= u < t ==> !RoleStops(roleConstraints, allRoles, userRoleMatrix, listed, listed[u])
      {
        var role := listed[t];
        var roleIndex := IndexOf(allRoles, role);
        if roleIndex == -1 {
          why := UnknownRoleCheck(role, listed);
          assert FirstStop(roleConstraints, allRoles, userRoleMatrix, listed, t);
          return true, why, roleStatuses;
        }
        var roleBroken := RoleBreaksConstraint(role, listed);
        if roleBroken {
          assert FirstStop(roleConstraints, allRoles, userRoleMatrix, listed, t);
          return true, BrokenConstraint, roleStatuses;
        }
        roleStatuses := roleStatuses[roleIndex := true];
        assert listed[..t + 1] == listed[..t] + [role];
        forall j | 0 <= j < |allRoles|
          ensures allRoles[j] == role <==> j == roleIndex
        {
          if allRoles[j] == role {
            IndexOfDistinct(allRoles, j);
          }
        }
      }
      assert listed[..|listed|] == listed;
      stopped := false;
    }

    /** `parseUserRoles` on the lines of usersRoles.txt. A line is rejected
        when its user occurred before or one of its roles stops it (a broken
        constraint, or a role the role table lacks); the load stops there
        with the rows of the lines before it. On success the user table lists
        the users in line order, so the k-th user owns the k-th row. */
    method ParseUserRoles(lines: seq<Line>) returns (outcome: Outcome)
      requires UserLines(lines) && NoDuplicates(allRoles)
      modifies this`userRoleMatrix, this`allUsers
      ensures outcome == Loaded <==> AllAccepted(roleConstraints, allRoles, lines)
      ensures outcome == Loaded ==> userRoleMatrix == RowsOf(allRoles, lines) && allUsers == UsersOf(lines)
      ensures outcome != Loaded ==>
        (outcome.DuplicateUser? || outcome.ConstraintViolated? || outcome.RoleNotFound?) && 1 <= outcome.line <= |lines| &&
        RejectedAt(roleConstraints, allRoles, lines, outcome.line - 1,
                   if outcome.DuplicateUser? then RepeatedUser
                   else if outcome.ConstraintViolated? then BrokenConstraint else UnknownRole) &&
        userRoleMatrix == RowsOf(allRoles, lines[..outcome.line - 1]) && allUsers == old(allUsers)
    {
      userRoleMatrix := [];
      var users: seq<string> := [];
      for k := 0 to |lines|
        invariant users == UsersOf(lines[..k]) && userRoleMatrix == RowsOf(allRoles, lines[..k])
        invariant AllAccepted(roleConstraints, allRoles, lines[..k])
        invariant allUsers == old(allUsers)
      {
        var rejected, why, roleStatuses := CheckUserLine(lines, k, users);
        if rejected {
          match why {
            case RepeatedUser => outcome := DuplicateUser(k + 1);
            case BrokenConstraint => outcome := ConstraintViolated(k + 1);
            case UnknownRole => outcome := RoleNotFound(k + 1);
          }
          return;
        }
        AcceptedOneMore(roleConstraints, allRoles, lines, k);
        userRoleMatrix := userRoleMatrix + [roleStatuses];
        users := users + [lines[k][0]];
      }
      assert lines[..|lines|] == lines;
      allUsers := users;
      outcome := Loaded;
    }

    /** The checks `parseUserRoles` makes on line `k` after the lines before
        it were accepted: first that its user is new, then each of its roles
        in order. */
    method CheckUserLine(lines: seq<Line>, k: int, users: seq<string>)
      returns (rejected: bool, why: Rejection, roleStatuses: seq<bool>)
      requires UserLines(lines) && NoDuplicates(allRoles) && 0 <= k < |lines|
      requires AllAccepted(roleConstraints, allRoles, lines[..k])
      requires users == UsersOf(lines[..k]) && userRoleMatrix == RowsOf(allRoles, lines[..k])
      ensures rejected ==> RejectedAt(roleConstraints, allRoles, lines, k, why)
      ensures rejected ==> !AllAccepted(roleConstraints, allRoles, lines)
      ensures !rejected ==>
        LineAccepted(roleConstraints, allRoles, lines[..k], lines[k]) &&
        roleStatuses == Statuses(allRoles, lines[k][1..])
    {
      var user := lines[k][0];
      if user in users {
        RejectedNotAccepted(roleConstraints, allRoles, lines, k, RepeatedUser);
        return true, RepeatedUser, [];
      }
      rejected, why, roleStatuses := UserRow(lines[k][1..]);
      if rejected {
        RejectedNotAccepted(roleConstraints, allRoles, lines, k, why);
      }
    }

    // -------------------------------------------------------------------
    // Queries

    /** `hasUserObjectPermission`: some role marked for the user holds the
        label in the column `target` selects. */
    method HasUserObjectPermission(user: string, target: string, permission: string) returns (hasPermission: bool)
      requires Tables() && user in allUsers
      ensures hasPermission <==>
        Authorized(allRoles, allObjects, roleObjectMatrix, RowFor(allUsers, userRoleMatrix, user), target, permission)
    {
      var userIndex := IndexOf(allUsers, user);
      var objectIndex := ColumnIndex(allRoles, allObjects, target);
      var roleStatuses := userRoleMatrix[userIndex];
      hasPermission := false;
      for i := 0 to |roleStatuses|
        invariant hasPermission <==>
          exists k :: 0 <= k < i && roleStatuses[k] && permission in roleObjectMatrix[k][objectIndex]
      {
        if roleStatuses[i] {
          var objects := roleObjectMatrix[i];
          var objectPermissions := objects[objectIndex];
          if permission in objectPermissions {
            hasPermission := true;
          }
        }
      }
    }

    /** The query with the object left empty: some role marked for the user
        holds the label on some role or object. */
    method HasUserAnyObjectPermission(user: string, permission: string) returns (hasPermission: bool)
      requires Tables() && user in allUsers
      ensures hasPermission <==>
        AuthorizedOnAny(allRoles, allObjects, roleObjectMatrix, RowFor(allUsers, userRoleMatrix, user), permission)
    {
      var userIndex := IndexOf(allUsers, user);
      var roleStatuses := userRoleMatrix[userIndex];
      var numColumns := |allRoles| + |allObjects|;
      hasPermission := false;
      for i := 0 to |roleStatuses|
        invariant hasPermission <==>
          exists k, j :: 0 <= k < i && 0 <= j < numColumns && roleStatuses[k] && permission in roleObjectMatrix[k][j]
      {
        if roleStatuses[i] {
          var objects := roleObjectMatrix[i];
          for j := 0 to numColumns
            invariant hasPermission <==>
              (exists k, l :: 0 <= k < i && 0 <= l < numColumns && roleStatuses[k] && permission in roleObjectMatrix[k][l]) ||
              (exists l :: 0 <= l < j && permission in objects[l])
          {
            if permission in objects[j] {
              hasPermission := true;
            }
          }
        }
      }
    }

    /** `printUserPermissions`: for each role marked for the user, each
        non-empty cell of its row under the column's heading. */
    method UserPermissions(user: string) returns (entries: seq<Entry>)
      requires Tables() && user in allUsers
      ensures entries == Listing(allRoles, allObjects, roleObjectMatrix, RowFor(allUsers, userRoleMatrix, user), |allRoles|)
    {
      var userIndex := IndexOf(allUsers, user);
      var roleStatuses := userRoleMatrix[userIndex];
      entries := [];
      for i := 0 to |roleStatuses|
        invariant entries == Listing(allRoles, allObjects, roleObjectMatrix, roleStatuses, i)
      {
        if roleStatuses[i] {
          var objects := roleObjectMatrix[i];
          ghost var start := entries;
          for j := 0 to |objects|
            invariant entries == start + RowEntries(allRoles, allObjects, objects, j)
          {
            var objectPermissions := objects[j];
            if objectPermissions != [] {
              var heading := if j < |roleObjectMatrix| then allRoles[j] else allObjects[j - |roleObjectMatrix|];
              entries := entries + [Entry(heading, objectPermissions)];
            }
          }
        }
      }
    }

    /** `printUserObjectPermissions`: for each role marked for the user, its
        cell in the column `target` selects, when not empty. */
    method UserObjectPermissions(user: string, target: string) returns (cells: seq<Cell>)
      requires Tables() && user in allUsers
      ensures cells == ObjectListing(roleObjectMatrix, RowFor(allUsers, userRoleMatrix, user),
                                     ColumnIndex(allRoles, allObjects, target), |allRoles|)
    {
      var userIndex := IndexOf(allUsers, user);
      var objectIndex := ColumnIndex(allRoles, allObjects, target);
      var roleStatuses := userRoleMatrix[userIndex];
      cells := [];
      for i := 0 to |roleStatuses|
        invariant cells == ObjectListing(roleObjectMatrix, roleStatuses, objectIndex, i)
      {
        if roleStatuses[i] {
          var objectPermissions := roleObjectMatrix[i][objectIndex];
          if objectPermissions != [] {
            cells := cells + [objectPermissions];
          }
        }
      }
    }

    /** One round of `runQueryLoop`: the user must be known; a non-empty
        object must be a known role or object; with no label the listings
        are given, otherwise the decision. A query for a label on no object
        in particular asks about any object. */
    method Query(user: string, target: string, permission: string) returns (answer: Answer)
      requires Tables()
      ensures answer == InvalidUser <==> user == "" || user !in allUsers
      ensures answer == InvalidObject <==>
        user != "" && user in allUsers && target != "" && target !in allObjects && target !in allRoles
      ensures user != "" && user in allUsers && target == "" && permission == "" ==>
        answer == Permissions(Listing(allRoles, allObjects, roleObjectMatrix, RowFor(allUsers, userRoleMatrix, user), |allRoles|))
      ensures user != "" && user in allUsers && target != "" && (target in allObjects || target in allRoles) && permission == "" ==>
        answer == ObjectPermissions(ObjectListing(roleObjectMatrix, RowFor(allUsers, userRoleMatrix, user),
                                                  ColumnIndex(allRoles, allObjects, target), |allRoles|))
      ensures user != "" && user in allUsers && target == "" && permission != "" ==>
        answer == Decision(AuthorizedOnAny(allRoles, allObjects, roleObjectMatrix, RowFor(allUsers, userRoleMatrix, user), permission))
      ensures user != "" && user in allUsers && target != "" && (target in allObjects || target in allRoles) && permission != "" ==>
        answer == Decision(Authorized(allRoles, allObjects, roleObjectMatrix, RowFor(allUsers, userRoleMatrix, user), target, permission))
    {
      if user == "" || user !in allUsers {
        return InvalidUser;
      }
      if target != "" && target !in allObjects && target !in allRoles {
        return InvalidObject;
      }
      if target == "" && permission == "" {
        var entries := UserPermissions(user);
        answer := Permissions(entries);
      } else if permission == "" {
        var cells := UserObjectPermissions(user, target);
        answer := ObjectPermissions(cells);
      } else if target == "" {
        var authorized := HasUserAnyObjectPermission(user, permission);
        answer := Decision(authorized);
      } else {
        var authorized := HasUserObjectPermission(user, target, permission);
        answer := Decision(authorized);
      }
    }
  }
}

# Secret-santa assignment and group bookkeeping, modelled in Dafny

This project models two parts of a secret-santa service.

**The rusty-santa assignment library.** A `Group` collects people and exclusion constraints:

- `ExcludePair(a, b)` forbids a and b from drawing each other;
- `Exclude(from, to)` forbids only from drawing to.

`assign` shuffles the people once and then makes up to 1000 attempts. Each attempt:

- builds a fresh "may X give to Y" `Matrix` whose diagonal is false;
- applies the constraints in list order, and stops with `BadConstraint` at the first name that is not a person;
- lets each person in shuffled order draw some recipient from the true entries of their row;
- clears that recipient's column.

An attempt whose current person has an empty row is abandoned. When every attempt is abandoned the result is `GivingUp`.

The main results:

- A completed attempt is a secret-santa assignment: `Assignments.IsSecretSanta` means each person gives once and receives once, nobody draws themselves, and no pair is excluded.
- `Group.Assign` returns `GivingUp` only after 1000 dead ends.
- Validation reports exactly the first unknown name.

**The web service's user/group state** (`backend`). It is a class holding two maps, one of users and one of groups. It has four guarded transitions:

- create a group;
- join a group;
- appoint an admin;
- resign as admin.

Each refusal is checked in the source's order and leaves the state unchanged. All four preserve the invariant that every group has a non-empty, duplicate-free admin list and a duplicate-free member list.

Randomness becomes nondeterminism:

- the shuffle (`SantaGroup.Shuffle`) may return any duplicate-free ordering of the people;
- the recipient of each draw is chosen with `:|` from the basket.

Each result property is therefore proved for every possible run.

The code differs from what one might expect in these places, and the model follows the code:

- There is no "fewer than two participants" error. With no people, `assign` returns `Ok` of an empty list. With one person every attempt gets stuck, so it returns `GivingUp`. `Group.Assign` proves both cases.
- Unknown keys given to `get`, `get_row`, `set` and `set_col` make the library panic (it unwraps the lookup). They are preconditions here and not error results.
- `Matrix::new` does not reject duplicate keys. Distinct keys are its precondition; the library's only caller passes the members of a set.
- `user_group.rs` is unfinished Rust:
  - a stray brace at line 60 ends the `impl` early;
  - `join_group` has no final `Ok(())`;
  - moved strings are used again.

  The model follows the evident intent. Every successful transition returns `Ok(())` after its update.
- `assign_admin` and `ressign_admin` look a user up by the key they are given, but compare and store that record's `name` field. The model does the same.

Files:

| file | contents |
|---|---|
| `basics.dfy` | names, `Option`, `Result`, distinctness |
| `matrix.dfy` | the `Matrix` class |
| `constraints.dfy` | constraints and validation |
| `assignments.dfy` | draws, dead ends, the secret-santa property |
| `grid_spec.dfy` | grid states during an attempt |
| `santa_group.dfy` | the attempt engine and the `Group` class |
| `user_group.dfy` | the service state |
| `scenarios.dfy` | the library's own usage scenarios; the three-person group is stated for any three different names, of which "a", "b", "c" is one instance |

## Model

| member | source | states |
|---|---|---|
| GiftMatrix.Matrix.constructor | rusty-santa-master/rusty-santa/src/lib.rs:17-40 | for distinct keys: the index map inverts the key list, the grid is square over the keys, and a cell is true exactly when its row and column differ |
| GiftMatrix.Matrix.Get | rusty-santa-master/rusty-santa/src/lib.rs:42-46 | for two known keys, the result is the cell at the row of x and the column of y |
| GiftMatrix.Matrix.GetRow | rusty-santa-master/rusty-santa/src/lib.rs:49-52 | the row has one entry per key, and entry j is `Get(x, keys[j])` |
| GiftMatrix.Matrix.Set | rusty-santa-master/rusty-santa/src/lib.rs:55-59 | afterwards `Get(x, y)` is the new value; every other cell, the keys and the index map are unchanged |
| GiftMatrix.Matrix.SetCol | rusty-santa-master/rusty-santa/src/lib.rs:62-67 | every row's entry in y's column becomes the value; all other columns, the keys and the index map are unchanged |
| GiftMatrix.Matrix.Contains | rusty-santa-master/rusty-santa/src/lib.rs:70-72 | true exactly when the key is among the keys, equivalently in the index map |
| GiftMatrix.Matrix.Size | rusty-santa-master/rusty-santa/src/lib.rs:75-77 | the grid has that many rows and each row that many entries |
| GiftMatrix.Matrix.KeyAt | rusty-santa-master/rusty-santa/src/lib.rs:80-82 | the key at a position is indexed at that same position |
| Constraints.UnknownName | rusty-santa-master/rusty-santa/src/lib.rs:158-174 | for a constraint naming a stranger, the reported name is not a person; it is the first name (`a` or `from`) whenever that one is unknown, and otherwise the second (`b` or `to`) |
| Constraints.FirstUnknown | rusty-santa-master/rusty-santa/src/lib.rs:156-178 | a reported name is never a person of the group |
| Constraints.FirstUnknownNone | rusty-santa-master/rusty-santa/src/lib.rs:156-178 | validation passes exactly when every constraint names only people |
| Constraints.FirstUnknownAt | rusty-santa-master/rusty-santa/src/lib.rs:156-178 | a failing validation reports constraint k, with every earlier constraint valid, and within it the first unknown name |
| Constraints.FirstUnknownAppend | rusty-santa-master/rusty-santa/src/lib.rs:156-178 | validating a concatenation gives the left part's failure if there is one, else the right part's answer |
| Constraints.ExcludedMeans | rusty-santa-master/rusty-santa/src/lib.rs:158-176 | an edge is excluded exactly when some constraint blocks it; a pair blocks both directions, an exclude only one |
| Constraints.ExcludedSnoc | rusty-santa-master/rusty-santa/src/lib.rs:156-178 | adding one constraint adds exactly the edges it blocks |
| Assignments.DrawExtend | rusty-santa-master/rusty-santa/src/lib.rs:201-208 | a partial draw extended with an eligible recipient for the next person is still a partial draw, with one more recipient |
| Assignments.CompleteDrawIsSecretSanta | rusty-santa-master/rusty-santa/src/lib.rs:180-211 | a completed draw over an ordering of the people is a secret-santa assignment |
| Assignments.SecretSantaShape | rusty-santa-master/rusty-santa/src/lib.rs:180-211 | a secret-santa assignment has exactly one pair per person, and each pair joins two different people of the group |
| Assignments.SingletonGivesToSelf | rusty-santa-master/rusty-santa/src/lib.rs:181-200 | with one person, a list whose givers and recipients are exactly that person is one self-gift |
| Assignments.SingletonHasNone | rusty-santa-master/rusty-santa/src/lib.rs:181-200 | no secret-santa assignment exists for exactly one person |
| GridSpec.ClearedBySnoc | rusty-santa-master/rusty-santa/src/lib.rs:156-178 | clearing for a list of constraints and then for one more clears exactly the edges of the longer list |
| GridSpec.ClearedByPrefix | rusty-santa-master/rusty-santa/src/lib.rs:156-178 | clearing for the first k constraints and then for constraint k clears exactly the edges of the first k + 1 |
| GridSpec.ExcludeCleared | rusty-santa-master/rusty-santa/src/lib.rs:175 | clearing the single cell from `from` to `to` clears exactly the edges that `Exclude(from, to)` blocks |
| GridSpec.PairCleared | rusty-santa-master/rusty-santa/src/lib.rs:165-166 | clearing the cells a→b and b→a clears exactly the edges that `ExcludePair(a, b)` blocks |
| GridSpec.FreshClearedReflects | rusty-santa-master/rusty-santa/src/lib.rs:153-178 | a fresh grid with the constraints cleared holds, in each cell, exactly whether the recipient is eligible before anyone has drawn |
| GridSpec.ClearColumnReflects | rusty-santa-master/rusty-santa/src/lib.rs:204-208 | clearing the drawn person's column keeps every cell equal to eligibility after the longer draw |
| GridSpec.EmptyRowStuck | rusty-santa-master/rusty-santa/src/lib.rs:196-200 | an all-false row for the next person, while the grid mirrors eligibility, is a dead end |
| SantaGroup.Shuffle | rusty-santa-master/rusty-santa/src/lib.rs:146-148 | the result lists every person exactly once |
| SantaGroup.ApplyConstraint | rusty-santa-master/rusty-santa/src/lib.rs:157-177 | reports the constraint's first unknown name, if any; otherwise exactly the edges the constraint blocks are cleared |
| SantaGroup.ApplyConstraints | rusty-santa-master/rusty-santa/src/lib.rs:155-178 | the result equals the first unknown name in list order; when there is none, exactly the excluded edges are cleared |
| SantaGroup.ApplyFailsAt | rusty-santa-master/rusty-santa/src/lib.rs:156-178 | when the first k constraints pass and constraint k fails, the whole list fails with k's unknown name |
| SantaGroup.ApplyPassesAt | rusty-santa-master/rusty-santa/src/lib.rs:156-178 | when the first k constraints pass and constraint k passes, the first k + 1 pass |
| SantaGroup.CollectBasket | rusty-santa-master/rusty-santa/src/lib.rs:184-193 | the basket holds exactly the keys whose cell in x's row is true |
| SantaGroup.PickRecipient | rusty-santa-master/rusty-santa/src/lib.rs:184-201 | an empty basket means the draw is stuck; otherwise the chosen recipient is a person who is eligible for the current giver |
| SantaGroup.DrawStep | rusty-santa-master/rusty-santa/src/lib.rs:181-208 | a stuck turn is reported as such; otherwise the new draw is the old one with one pair for the current person appended, it stays a valid partial draw, and the grid still mirrors eligibility |
| SantaGroup.DrawAttempt | rusty-santa-master/rusty-santa/src/lib.rs:180-211 | the attempt either completes a draw with one pair per person, with the matrix left in step with that draw, or returns a dead end; with no people it completes with no pairs |
| SantaGroup.Attempt | rusty-santa-master/rusty-santa/src/lib.rs:152-211 | validation's answer is the first unknown name; after it passes, the attempt yields either a complete draw, which is a secret-santa assignment, or a dead end; no people completes at once; one person never completes |
| SantaGroup.KeysDistinct | rusty-santa-master/rusty-santa/src/lib.rs:21-25 | the keys of a matrix whose index map inverts them are pairwise distinct |
| SantaGroup.Group.constructor | rusty-santa-master/rusty-santa/src/lib.rs:108-114 | no people and no constraints |
| SantaGroup.Group.Add | rusty-santa-master/rusty-santa/src/lib.rs:117-119 | the name joins the people set; the constraints are unchanged |
| SantaGroup.Group.AddConstraint | rusty-santa-master/rusty-santa/src/lib.rs:121-123 | the constraint is appended; the people are unchanged |
| SantaGroup.Group.Exclude | rusty-santa-master/rusty-santa/src/lib.rs:125-128 | a one-way exclusion is appended, with no check of the names |
| SantaGroup.Group.ExcludePair | rusty-santa-master/rusty-santa/src/lib.rs:131-134 | a two-way exclusion is appended, with no check of the names |
| SantaGroup.Group.ContainsName | rusty-santa-master/rusty-santa/src/lib.rs:137-139 | true exactly when the name has been added |
| SantaGroup.Group.Assign | rusty-santa-master/rusty-santa/src/lib.rs:142-214 | `BadConstraint` exactly when validation fails, carrying the first unknown name; `Ok` is a secret-santa assignment drawn in the shuffled order; `GivingUp` follows 1000 dead ends and needs at least one person; no people gives `Ok([])`; one person gives `GivingUp` |
| UserGroup.NewGroup | backend/src/user_group.rs:46-53 | a new group carries the given name and creator, is open, has the creator as its only member and admin, has no pairs, and satisfies the group invariant |
| UserGroup.Without | backend/src/user_group.rs:122 | the retained list holds exactly the other names, each as often as in the original, and is no longer than it |
| UserGroup.WithoutDistinct | backend/src/user_group.rs:122 | removing a name from a duplicate-free list keeps it duplicate-free and shortens it by one exactly when the name was present |
| UserGroup.JoinKeepsOk | backend/src/user_group.rs:72-75 | adding a non-member keeps the group invariant and adds just that member |
| UserGroup.AddAdminKeepsOk | backend/src/user_group.rs:97-100 | appointing a non-admin keeps the admins non-empty and duplicate-free, and adds just that name |
| UserGroup.ResignKeepsOk | backend/src/user_group.rs:116-122 | when the resigning admin is not the sole one, the admins stay non-empty and duplicate-free and lose exactly that name |
| UserGroup.Service.constructor | backend/src/user_group.rs:29-34 | no users and no groups |
| UserGroup.Service.CreateGroup | backend/src/user_group.rs:36-59 | refuses a taken name first, then an unknown creator, and changes nothing in either case; otherwise inserts the new group and appends its name to the creator's groups, and nothing else changes |
| UserGroup.Service.JoinGroup | backend/src/user_group.rs:62-76 | refuses, in order, a missing group, a closed group, an unknown user and an existing member, and changes nothing in those cases; otherwise appends the user to the members; users are never changed |
| UserGroup.Service.AssignAdmin | backend/src/user_group.rs:78-102 | refuses, in order: a missing group, an unknown caller, an unknown appointee, a caller's name outside the admins, and an appointee's name already an admin; otherwise appends the appointee's name to the admins; the invariant is kept |
| UserGroup.Service.ResignAdmin | backend/src/user_group.rs:104-124 | refuses, in order: a missing group, an unknown user, a name outside the admins, and a sole admin; otherwise removes that name from the admins; the invariant is kept |
| Scenarios.MatrixOverThree | rusty-santa-master/rusty-santa/src/lib.rs:229-282 | over a, b, c: the size is 3, the membership queries hold, the diagonal is false, the other cells are true, and the rows are the listed ones |
| Scenarios.MatrixOverOne | rusty-santa-master/rusty-santa/src/lib.rs:284-286 | a matrix over one key has size 1 and its only cell is false |
| Scenarios.SetThenRestore | rusty-santa-master/rusty-santa/src/lib.rs:254-264 | writing a cell and then writing back its old value restores the grid |
| Scenarios.AddThenContains | rusty-santa-master/rusty-santa/src/lib.rs:108-139 | a new group given one name answers `contains_name` true for that name and false for any other |
| Scenarios.ThreePeoplePairs | rusty-santa-master/rusty-santa/src/lib.rs:298-308 | an assignment among three different people has three pairs, each between two different people of the three |
| Scenarios.ThreeWithoutConstraints | rusty-santa-master/rusty-santa/src/lib.rs:290-309 | an unconstrained group of three different people either succeeds with three such pairs or gives up; it never reports a bad constraint |

## Left out

- Randomness: the uniformity of `rng.shuffle` and `rng.choose` and the generator (`thread_rng`) are not modelled. The shuffle and the choice are arbitrary; a fair distribution is not something the model can state.
- SantaGroup.Group.Assign: does not state that an attempt succeeds whenever an assignment exists, because the source promises no such thing. A random draw can get stuck even when a valid assignment exists.
- The library's stress scenario (lib.rs:312-329) has no scenario member: it calls `assign` 1000 times on a constrained five-person group and asserts nothing about the results.
- The `trace!` logging and the text of error messages: errors are datatype variants that carry the names the messages mention.
- The mutexes in `user_group.rs`, including the `try_lock` failure branches ("Failed to acquire lock"): concurrency plumbing; the maps are plain fields.
- `backend/src/main.rs`: HTTP routes, the runtime and JSON persistence are not part of this model. That file does not use `Service`; it keeps its own users and groups.
- User registration: the source has no operation that adds a user to `Service.users`. The model treats `users` as a field set from outside the service.
- The `Clone`/`Debug` derivations and the `secret_santas` maps beyond their initial value: nothing in the core reads or updates them.
- Integer widths: `max_attempts: u32` and `usize` indexes never approach their limits here, so unbounded integers are used.

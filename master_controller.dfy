/** The master's handlers: admin accounts and colleges. Every admin is
    owned by the master who created it. */
module MasterController {
  import opened Wrappers
  import opened Table
  import opened Schema
  import opened Http
  import opened AuthController

  /** `createAdmin`: every field is required, the (email, college) pair must
      be new, and the new account is an admin of that college created by the
      calling master. */
  method CreateAdmin(db: Database, master: Principal, body: AccountBody, hashedPassword: string) returns (r: Reply)
    requires db.Valid()
    modifies db`users, db`nextUserId
    ensures db.Valid()
    ensures MissingField(body) ==> r == BadRequest
    ensures !MissingField(body) && Count(old(db.users), EmailAt(body.email.value, body.collegeId)) > 0 ==> r == BadRequest
    ensures !MissingField(body) && Count(old(db.users), EmailAt(body.email.value, body.collegeId)) == 0 ==>
      r == Created(old(db.nextUserId))
    ensures r == BadRequest ==> db.users == old(db.users) && db.nextUserId == old(db.nextUserId)
    ensures r != BadRequest ==>
      && r == Created(old(db.nextUserId))
      && db.users == Insert(old(db.users), old(db.nextUserId),
           User(body.name.value, body.email.value, hashedPassword, Admin, Unset, body.collegeId, Some(master.id)))
      && db.nextUserId == old(db.nextUserId) + 1
  {
    if MissingField(body) {
      return BadRequest;
    }
    if Count(db.users, EmailAt(body.email.value, body.collegeId)) > 0 {
      return BadRequest;
    }
    var u := User(body.name.value, body.email.value, hashedPassword, Admin, Unset, body.collegeId, Some(master.id));
    InsertAscending(db.users, db.nextUserId, u);
    r := Created(db.nextUserId);
    db.users := Insert(db.users, db.nextUserId, u);
    db.nextUserId := db.nextUserId + 1;
  }

  /** `WHERE role = 'admin' AND created_by = ?`. */
  function AdminOf(masterId: nat): Row<User> -> bool {
    (u: Row<User>) => u.rec.role == Admin && SqlEq(u.rec.createdBy, Some(masterId))
  }

  datatype AdminListing = AdminListing(id: nat, name: string, email: string, collegeName: Option<string>)

  /** `LEFT JOIN colleges c ON u.college_id = c.id`: the college's name, or
      NULL when there is no such college. */
  function CollegeName(colleges: seq<Row<College>>, college: Option<nat>): (r: Option<string>)
    ensures r.Some? <==> college.Some? && HasId(colleges, college.value)
    ensures r.Some? ==> exists c :: c in colleges && c.id == college.value && r.value == c.rec.name
  {
    if college.None? then None
    else
      var c := FindById(colleges, college.value);
      if c.None? then None else Some(c.value.rec.name)
  }

  /** The columns `getAdmins` selects for one account. */
  function Listing(colleges: seq<Row<College>>, u: Row<User>): AdminListing {
    AdminListing(u.id, u.rec.name, u.rec.email, CollegeName(colleges, u.rec.collegeId))
  }

  /** `getAdmins`: one entry per admin the master created, in table order,
      and none for any other account. */
  function GetAdmins(users: seq<Row<User>>, colleges: seq<Row<College>>, masterId: nat): (r: seq<AdminListing>)
    ensures |r| == Count(users, AdminOf(masterId))
    ensures forall k :: 0 <= k < |r| ==> exists u :: (u in users && u.rec.role == Admin
      && u.rec.createdBy == Some(masterId) && r[k] == Listing(colleges, u))
  {
    var own := Select(users, AdminOf(masterId));
    assert forall k :: 0 <= k < |own| ==> own[k] in own;
    seq(|own|, k requires 0 <= k < |own| => Listing(colleges, own[k]))
  }

  /** The listing shows exactly the master's own admins, and with ascending
      user ids no admin is listed twice. */
  lemma GetAdminsExactlyOwn(users: seq<Row<User>>, colleges: seq<Row<College>>, masterId: nat)
    ensures var r := GetAdmins(users, colleges, masterId);
      forall u :: u in users && AdminOf(masterId)(u) ==> Listing(colleges, u) in r
    ensures var r := GetAdmins(users, colleges, masterId);
      IdsAscending(users) ==> forall i, j :: 0 <= i < j < |r| ==> r[i].id < r[j].id
  {
    var own := Select(users, AdminOf(masterId));
    var r := GetAdmins(users, colleges, masterId);
    forall u | u in users && AdminOf(masterId)(u) ensures Listing(colleges, u) in r {
      assert u in own;
      var k :| 0 <= k < |own| && own[k] == u;
      assert r[k] == Listing(colleges, u);
    }
    if IdsAscending(users) {
      SelectAscending(users, AdminOf(masterId));
      forall i, j | 0 <= i < j < |r| ensures r[i].id < r[j].id {
        assert r[i].id == own[i].id && r[j].id == own[j].id;
      }
    }
  }

  /** The `DELETE` of `deleteAdmin`: only an admin this master created goes. */
  function RemoveAdmin(users: seq<Row<User>>, id: int, masterId: nat): (r: seq<Row<User>>)
    ensures forall x :: x in r <==> x in users && !(x.id == id && AdminOf(masterId)(x))
    ensures |r| == |users| - Count(users, (u: Row<User>) => u.id == id && AdminOf(masterId)(u))
  {
    Delete(users, (u: Row<User>) => u.id == id && AdminOf(masterId)(u))
  }

  /** `deleteAdmin`: 404 when this master created no admin with that id. */
  method DeleteAdmin(db: Database, master: Principal, id: int) returns (r: Reply)
    requires db.Valid()
    modifies db`users
    ensures db.Valid()
    ensures r == (if Count(old(db.users), (u: Row<User>) => u.id == id && AdminOf(master.id)(u)) == 0
                  then NotFound else Ok)
    ensures db.users == RemoveAdmin(old(db.users), id, master.id)
  {
    var p := (u: Row<User>) => u.id == id && AdminOf(master.id)(u);
    var affected := Count(db.users, p);
    DeleteAscending(db.users, p);
    DeleteBelow(db.users, p, db.nextUserId);
    db.users := RemoveAdmin(db.users, id, master.id);
    r := if affected == 0 then NotFound else Ok;
  }

  /** Students, and admins of other masters, survive any `deleteAdmin`. */
  lemma DeleteAdminSparesOthers(users: seq<Row<User>>, id: int, masterId: nat, x: Row<User>)
    requires x in users && (x.rec.role != Admin || x.rec.createdBy != Some(masterId))
    ensures x in RemoveAdmin(users, id, masterId)
  {
  }

  /** An admin the master just created is listed for that master, under its
      new id, and the listing grows by exactly that one entry. */
  lemma CreatedAdminListed(users: seq<Row<User>>, colleges: seq<Row<College>>, next: nat, u: User, masterId: nat)
    requires u.role == Admin && u.createdBy == Some(masterId)
    ensures var r := GetAdmins(Insert(users, next, u), colleges, masterId);
      exists k :: 0 <= k < |r| && r[k].id == next && r[k] == Listing(colleges, Row(next, u))
    ensures |GetAdmins(Insert(users, next, u), colleges, masterId)| == |GetAdmins(users, colleges, masterId)| + 1
  {
    var t := Insert(users, next, u);
    SelectAppend(users, Row(next, u), AdminOf(masterId));
    assert t[|users|] == Row(next, u);
    GetAdminsExactlyOwn(t, colleges, masterId);
    var r := GetAdmins(t, colleges, masterId);
    assert Listing(colleges, Row(next, u)) in r;
  }

  /** `WHERE name = ?` on `colleges`. */
  function Named(name: string): Row<College> -> bool {
    (c: Row<College>) => c.rec.name == name
  }

  /** `createCollege`: a name is required and must be new. */
  method CreateCollege(db: Database, name: Option<string>) returns (r: Reply)
    requires db.Valid()
    modifies db`colleges, db`nextCollegeId
    ensures db.Valid()
    ensures !Given(name) ==> r == BadRequest
    ensures Given(name) && Count(old(db.colleges), Named(name.value)) > 0 ==> r == BadRequest
    ensures Given(name) && Count(old(db.colleges), Named(name.value)) == 0 ==> r == Created(old(db.nextCollegeId))
    ensures r == BadRequest ==> db.colleges == old(db.colleges) && db.nextCollegeId == old(db.nextCollegeId)
    ensures r != BadRequest ==>
      && r == Created(old(db.nextCollegeId))
      && db.colleges == Insert(old(db.colleges), old(db.nextCollegeId), College(name.value))
      && db.nextCollegeId == old(db.nextCollegeId) + 1
  {
    if !Given(name) {
      return BadRequest;
    }
    if Count(db.colleges, Named(name.value)) > 0 {
      return BadRequest;
    }
    InsertAscending(db.colleges, db.nextCollegeId, College(name.value));
    r := Created(db.nextCollegeId);
    db.colleges := Insert(db.colleges, db.nextCollegeId, College(name.value));
    db.nextCollegeId := db.nextCollegeId + 1;
  }

  /** Names stay unique: when no two colleges share a name, a college that
      `createCollege` accepts keeps it that way. */
  lemma CollegeNamesStayUnique(colleges: seq<Row<College>>, next: nat, name: string)
    requires forall i, j :: 0 <= i < j < |colleges| ==> colleges[i].rec.name != colleges[j].rec.name
    requires Count(colleges, Named(name)) == 0
    ensures var t := Insert(colleges, next, College(name));
      forall i, j :: 0 <= i < j < |t| ==> t[i].rec.name != t[j].rec.name
  {
    var t := Insert(colleges, next, College(name));
    forall i, j | 0 <= i < j < |t| ensures t[i].rec.name != t[j].rec.name {
      assert t[i] == colleges[i];
      if j < |colleges| {
        assert t[j] == colleges[j];
      } else {
        assert !Named(name)(colleges[i]);
      }
    }
  }
}

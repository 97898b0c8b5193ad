/**
 * Employee listing and search, and the image-upload lifecycle of create, update and delete.
 *
 * Each step that can throw inside the controller's try block is an explicit input
 * (`Faults`); `now` is the value of time() during the request.
 */
module EmployeeController {
  import opened Prelude
  import opened Schema

  // ---------------------------------------------------------------------------
  // Queries
  // ---------------------------------------------------------------------------

  /** The listing: every employee that has a manager, and no manager. */
  function Index(employees: map<nat, Employee>): (r: map<nat, Employee>)
    ensures forall id | id in r :: id in employees && r[id] == employees[id] && r[id].managerId.Some?
    ensures forall id | id in employees && employees[id].managerId.Some? :: id in r
  {
    map id | id in employees && employees[id].managerId.Some? :: employees[id]
  }

  predicate NameMatches(e: Employee, term: string)
  {
    Contains(e.firstName, term) || Contains(e.lastName, term)
  }

  /** Own first or last name matches, or the manager row exists and its first or last name matches. */
  predicate MatchesSearch(employees: map<nat, Employee>, e: Employee, term: string)
  {
    || NameMatches(e, term)
    || (e.managerId.Some? && e.managerId.value in employees && NameMatches(employees[e.managerId.value], term))
  }

  /** The search: the three-way OR, over all employees (managers included). */
  function Search(employees: map<nat, Employee>, term: string): (r: map<nat, Employee>)
    ensures forall id :: id in r <==> id in employees && MatchesSearch(employees, employees[id], term)
    ensures forall id | id in r :: r[id] == employees[id]
  {
    map id | id in employees && MatchesSearch(employees, employees[id], term) :: employees[id]
  }

  /** Unlike the listing, the search applies no manager_id filter: a matching manager is found. */
  lemma SearchCanFindManager(employees: map<nat, Employee>, id: nat, term: string)
    requires id in employees && employees[id].managerId == None && NameMatches(employees[id], term)
    ensures id in Search(employees, term) && id !in Index(employees)
  {
  }

  /** An empty (or absent) search term lists every employee. */
  lemma EmptySearchListsAll(employees: map<nat, Employee>)
    ensures Search(employees, "").Keys == employees.Keys
  {
    forall k | k in employees
      ensures Contains(employees[k].firstName, "")
    {
      EmptyTermMatches(employees[k].firstName);
    }
  }

  // ---------------------------------------------------------------------------
  // Image names: "<time()>.<original extension>", stored under "images/"
  // ---------------------------------------------------------------------------

  /** An uploaded file, of which the controller reads only the original extension. */
  datatype Upload = Upload(extension: string)

  function ImageName(now: nat, extension: string): string
  {
    NatToString(now) + "." + extension
  }

  function ImagePath(name: string): string
  {
    "images/" + name
  }

  /** The position of the first '.' in `s`, or |s| when there is none. */
  function FirstDot(s: string): (i: nat)
    ensures i <= |s|
    ensures forall j | 0 <= j < i :: s[j] != '.'
    ensures i < |s| ==> s[i] == '.'
    decreases |s|
  {
    if s == [] || s[0] == '.' then 0 else 1 + FirstDot(s[1..])
  }

  /** Reads a stored name back as its timestamp and extension. */
  function ParseImageName(name: string): Option<(nat, string)>
  {
    var i := FirstDot(name);
    if 0 < i < |name| && AllDigits(name[..i]) then Some((DigitsToNat(name[..i]), name[i + 1..])) else None
  }

  /** A generated name has the shape <integer>.<ext>: it parses back to the time and the extension. */
  lemma ImageNameRoundTrip(now: nat, extension: string)
    ensures ParseImageName(ImageName(now, extension)) == Some((now, extension))
  {
    var digits := NatToString(now);
    var name := ImageName(now, extension);
    assert name[|digits|] == '.';
    assert name[..|digits|] == digits;
    assert FirstDot(name) == |digits|;
    assert name[|digits| + 1..] == extension;
    NatToStringRoundTrip(now);
  }

  /** Two uploads get the same name exactly when they share the second and the extension. */
  lemma ImageNamesCollideIff(t1: nat, e1: string, t2: nat, e2: string)
    ensures ImageName(t1, e1) == ImageName(t2, e2) <==> t1 == t2 && e1 == e2
  {
    ImageNameRoundTrip(t1, e1);
    ImageNameRoundTrip(t2, e2);
  }

  /** PHP truthiness of the image column: null, "" and "0" are false. */
  predicate Truthy(image: Option<string>)
  {
    image.Some? && image.value != "" && image.value != "0"
  }

  // ---------------------------------------------------------------------------
  // Create, update and delete, specified by their effect on rows and files
  // ---------------------------------------------------------------------------

  /** Which step inside the try block throws: storing the file, or writing the row. */
  datatype Faults = Faults(storeFails: bool, writeFails: bool)

  /** The request's result and the employee table and file store it leaves behind. */
  datatype Effect = Effect(outcome: Outcome, employees: map<nat, Employee>, images: set<string>)

  /** The effect of creating employee `id` (the table's next key). */
  function StoreEffect(employees: map<nat, Employee>, images: set<string>, id: nat,
                       fields: EmployeeFields, upload: Option<Upload>, now: nat, faults: Faults): Effect
  {
    match upload
    case None =>
      if faults.writeFails then Effect(Error, employees, images)
      else Effect(Success, employees[id := WithFields(fields, None)], images)
    case Some(file) =>
      var name := ImageName(now, file.extension);
      if faults.storeFails || faults.writeFails then Effect(Error, employees, images - {ImagePath(name)})
      else Effect(Success, employees[id := WithFields(fields, Some(name))], images + {ImagePath(name)})
  }

  /** The effect of updating employee `id`: the old file goes first, whatever follows. */
  function UpdateEffect(employees: map<nat, Employee>, images: set<string>, id: nat,
                        fields: EmployeeFields, upload: Option<Upload>, now: nat, faults: Faults): Effect
    requires id in employees
  {
    var row := employees[id];
    match upload
    case None =>
      if faults.writeFails then Effect(Error, employees, images)
      else Effect(Success, employees[id := WithFields(fields, row.image)], images)
    case Some(file) =>
      var kept := if Truthy(row.image) then images - {ImagePath(row.image.value)} else images;
      var name := ImageName(now, file.extension);
      if faults.storeFails || faults.writeFails then Effect(Error, employees, kept - {ImagePath(name)})
      else Effect(Success, employees[id := WithFields(fields, Some(name))], kept + {ImagePath(name)})
  }

  method Store(db: Database, fields: EmployeeFields, upload: Option<Upload>, now: nat, faults: Faults)
    returns (outcome: Outcome)
    requires db.Valid()
    modifies db`employees, db`images, db`nextEmployeeId
    ensures db.Valid()
    ensures var effect := StoreEffect(old(db.employees), old(db.images), old(db.nextEmployeeId), fields, upload, now, faults);
            outcome == effect.outcome && db.employees == effect.employees && db.images == effect.images
  {
    var imageName: Option<string> := None;
    var failed := false;
    if upload.Some? {
      imageName := Some(ImageName(now, upload.value.extension));
      if faults.storeFails {
        failed := true;
      } else {
        db.images := db.images + {ImagePath(imageName.value)};
        if faults.writeFails {
          failed := true;
        } else {
          db.employees := db.employees[db.nextEmployeeId := WithFields(fields, imageName)];
          db.nextEmployeeId := db.nextEmployeeId + 1;
        }
      }
    } else if faults.writeFails {
      failed := true;
    } else {
      db.employees := db.employees[db.nextEmployeeId := WithFields(fields, None)];
      db.nextEmployeeId := db.nextEmployeeId + 1;
    }
    if failed {
      // the catch block: remove the file under the chosen name, if a name was chosen
      if imageName.Some? {
        db.images := db.images - {ImagePath(imageName.value)};
      }
      outcome := Error;
    } else {
      outcome := Success;
    }
  }

  method Update(db: Database, id: nat, fields: EmployeeFields, upload: Option<Upload>, now: nat, faults: Faults)
    returns (outcome: Outcome)
    requires db.Valid() && id in db.employees
    modifies db`employees, db`images
    ensures db.Valid()
    ensures var effect := UpdateEffect(old(db.employees), old(db.images), id, fields, upload, now, faults);
            outcome == effect.outcome && db.employees == effect.employees && db.images == effect.images
  {
    var imageName: Option<string> := None;
    var failed := false;
    var row := db.employees[id];
    if upload.Some? {
      if Truthy(row.image) {
        db.images := db.images - {ImagePath(row.image.value)};
      }
      imageName := Some(ImageName(now, upload.value.extension));
      if faults.storeFails {
        failed := true;
      } else {
        db.images := db.images + {ImagePath(imageName.value)};
        if faults.writeFails {
          failed := true;
        } else {
          db.employees := db.employees[id := WithFields(fields, imageName)];
        }
      }
    } else if faults.writeFails {
      failed := true;
    } else {
      db.employees := db.employees[id := WithFields(fields, row.image)];
    }
    if failed {
      // the catch block removes the new file only; the old one stays deleted
      if imageName.Some? {
        db.images := db.images - {ImagePath(imageName.value)};
      }
      outcome := Error;
    } else {
      outcome := Success;
    }
  }

  /** Deletes the row unconditionally; the image file is left in storage. */
  method Destroy(db: Database, id: nat) returns (outcome: Outcome)
    requires db.Valid() && id in db.employees
    modifies db`employees
    ensures db.Valid()
    ensures outcome == Success
    ensures db.employees == old(db.employees) - {id}
    ensures db.images == old(db.images)
  {
    db.employees := db.employees - {id};
    outcome := Success;
  }

  // ---------------------------------------------------------------------------
  // Properties of the lifecycle
  // ---------------------------------------------------------------------------

  /** A create with an image that goes through stores the file and names it in exactly one new row. */
  lemma StoreWithImage(employees: map<nat, Employee>, images: set<string>, id: nat,
                       fields: EmployeeFields, file: Upload, now: nat)
    requires id !in employees
    ensures var effect := StoreEffect(employees, images, id, fields, Some(file), now, Faults(false, false));
            var name := ImageName(now, file.extension);
            && effect.outcome == Success
            && ParseImageName(name) == Some((now, file.extension))
            && effect.images == images + {ImagePath(name)}
            && effect.employees.Keys == employees.Keys + {id}
            && effect.employees[id] == WithFields(fields, Some(name))
            && (forall k | k in employees :: effect.employees[k] == employees[k])
  {
    ImageNameRoundTrip(now, file.extension);
  }

  /**
   * A create without an image never touches storage, whatever happens; when the row write
   * goes through it creates exactly one row from the validated data, with no image.
   */
  lemma StoreWithoutImageKeepsStorage(employees: map<nat, Employee>, images: set<string>, id: nat,
                                      fields: EmployeeFields, now: nat, faults: Faults)
    ensures StoreEffect(employees, images, id, fields, None, now, faults).images == images
    ensures !faults.writeFails ==>
              && StoreEffect(employees, images, id, fields, None, now, faults).outcome == Success
              && StoreEffect(employees, images, id, fields, None, now, faults).employees == employees[id := WithFields(fields, None)]
  {
  }

  /**
   * A failed create adds no row, adds no file, and leaves no file under the chosen name;
   * a file already stored under that name by an upload in the same second is removed with it.
   */
  lemma FailedStoreLeavesNoOrphan(employees: map<nat, Employee>, images: set<string>, id: nat,
                                  fields: EmployeeFields, upload: Option<Upload>, now: nat, faults: Faults)
    requires StoreEffect(employees, images, id, fields, upload, now, faults).outcome == Error
    ensures var effect := StoreEffect(employees, images, id, fields, upload, now, faults);
            && effect.employees == employees
            && effect.images <= images
            && (upload.Some? ==> ImagePath(ImageName(now, upload.value.extension)) !in effect.images)
  {
  }

  /** An update with a new image that goes through: the old file is gone, the new one is stored and named. */
  lemma UpdateWithImage(employees: map<nat, Employee>, images: set<string>, id: nat,
                        fields: EmployeeFields, file: Upload, now: nat)
    requires id in employees
    ensures var oldImage := employees[id].image;
            var name := ImageName(now, file.extension);
            var effect := UpdateEffect(employees, images, id, fields, Some(file), now, Faults(false, false));
            && effect.outcome == Success
            && effect.employees == employees[id := WithFields(fields, Some(name))]
            && ImagePath(name) in effect.images
            && (Truthy(oldImage) && oldImage.value != name ==> ImagePath(oldImage.value) !in effect.images)
  {
    var oldImage := employees[id].image;
    if Truthy(oldImage) && oldImage.value != ImageName(now, file.extension) {
      assert ImagePath(oldImage.value) != ImagePath(ImageName(now, file.extension)) by {
        assert ImagePath(oldImage.value)[7..] == oldImage.value;
      }
    }
  }

  /**
   * A failed update keeps the row as it was but does not bring the old file back: when the
   * row named a file and a new image was sent, the row now names a file that is not stored.
   */
  lemma FailedUpdateLeavesDanglingImage(employees: map<nat, Employee>, images: set<string>, id: nat,
                                        fields: EmployeeFields, upload: Option<Upload>, now: nat, faults: Faults)
    requires id in employees
    requires UpdateEffect(employees, images, id, fields, upload, now, faults).outcome == Error
    ensures var effect := UpdateEffect(employees, images, id, fields, upload, now, faults);
            && effect.employees == employees
            && effect.images <= images
            && (upload.Some? ==> ImagePath(ImageName(now, upload.value.extension)) !in effect.images)
            && (upload.Some? && Truthy(employees[id].image) ==>
                  effect.employees[id].image == employees[id].image
                  && ImagePath(employees[id].image.value) !in effect.images)
  {
  }
}

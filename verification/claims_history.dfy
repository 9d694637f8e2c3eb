/** The claims history card (frontend/components/ClaimsHistory.tsx): the
    colour of a claim's status badge, and the fixed table of claims the card
    shows. */
module ClaimsHistory {
  import opened Text

  /** One row of the table; amounts are whole US dollars. */
  datatype Claim = Claim(
    subLtr: string,
    occurrenceId: string,
    procAIM: string,
    eventDate: string,
    madeDate: string,
    reportDate: string,
    closeDate: string,
    reopenDate: string,
    state: string,
    description: string,
    claimant: string,
    status: string,
    grossPaidLoss: int,
    grossPaidExpense: int,
    grossOutstanding: int,
    grossIncurredLoss: int)

  const Green := "bg-green-500"
  const Yellow := "bg-yellow-500"
  const Gray := "bg-gray-500"

  /** `getStatusColor`: a switch over the lower-cased status. */
  function StatusColor(status: string): (color: string)
    ensures color == Green || color == Yellow || color == Gray
  {
    var s := Lower(status);
    if s == "closed" then Green
    else if s == "reopened" then Yellow
    else Gray
  }

  /** The colour depends on the lower-cased status only: green exactly for
      "closed", yellow exactly for "reopened", gray for everything else. */
  lemma StatusColorCases(status: string)
    ensures StatusColor(status) == StatusColor(Lower(status))
    ensures StatusColor(status) == Green <==> Lower(status) == "closed"
    ensures StatusColor(status) == Yellow <==> Lower(status) == "reopened"
    ensures StatusColor(status) == Gray <==> Lower(status) != "closed" && Lower(status) != "reopened"
  {
    LowerIdempotent(status);
  }

  /** "closed" in any mix of letter cases. */
  predicate AnyCaseOf(status: string, word: string)
    requires forall i :: 0 <= i < |word| ==> IsLower(word[i])
  {
    |status| == |word| && forall i :: 0 <= i < |word| ==> status[i] == word[i] || status[i] == UpperChar(word[i])
  }

  lemma AnyCaseLowers(status: string, word: string)
    requires forall i :: 0 <= i < |word| ==> IsLower(word[i])
    requires AnyCaseOf(status, word)
    ensures Lower(status) == word
  {
    forall i | 0 <= i < |word| ensures Lower(status)[i] == word[i] {
      assert LowerChar(UpperChar(word[i])) == word[i];
    }
  }

  /** "Closed", "CLOSED", "cLoSeD" … give green; "Reopened", "REOPENED" …
      give yellow. */
  lemma StatusColorAnyCase(status: string)
    ensures AnyCaseOf(status, "closed") ==> StatusColor(status) == Green
    ensures AnyCaseOf(status, "reopened") ==> StatusColor(status) == Yellow
  {
    if AnyCaseOf(status, "closed") {
      AnyCaseLowers(status, "closed");
    }
    if AnyCaseOf(status, "reopened") {
      AnyCaseLowers(status, "reopened");
    }
  }

  // ---------------------------------------------------------------------------
  // The table

  const Claim1001 := Claim(
    "A",
    "1001",
    "FIRE",
    "01/15/2022",
    "01/16/2022",
    "01/17/2022",
    "03/01/2022",
    "N/A",
    "NY",
    "Fire damage to server room due to faulty wiring.",
    "Empire Tech Tower, Inc.",
    "Closed",
    750000,
    50000,
    0,
    800000)

  const Claim1002 := Claim(
    "B",
    "1002",
    "WATER",
    "09/10/2021",
    "09/12/2021",
    "09/13/2021",
    "11/15/2021",
    "02/01/2022",
    "NY",
    "Water damage from burst pipe affecting multiple floors.",
    "Empire Tech Tower, Inc.",
    "Reopened",
    1200000,
    100000,
    200000,
    1500000)

  const Claim1003 := Claim(
    "C",
    "1003",
    "THEFT",
    "03/05/2020",
    "03/06/2020",
    "03/07/2020",
    "04/10/2020",
    "N/A",
    "NY",
    "Theft of high-value tech equipment from secure room.",
    "Empire Tech Tower, Inc.",
    "Closed",
    500000,
    30000,
    0,
    530000)

  const Claim1004 := Claim(
    "D",
    "1004",
    "WIND",
    "11/20/2019",
    "11/22/2019",
    "11/23/2019",
    "01/05/2020",
    "N/A",
    "NY",
    "Windstorm causing structural damage to the facade.",
    "Empire Tech Tower, Inc.",
    "Closed",
    900000,
    75000,
    0,
    975000)

  const Claim1005 := Claim(
    "E",
    "1005",
    "SLIP",
    "07/14/2021",
    "07/15/2021",
    "07/16/2021",
    "08/10/2021",
    "N/A",
    "NY",
    "Slip and fall incident in the lobby area.",
    "Empire Tech Tower, Inc.",
    "Closed",
    100000,
    10000,
    0,
    110000)

  const Claim1006 := Claim(
    "F",
    "1006",
    "EXPLOSION",
    "06/25/2022",
    "06/26/2022",
    "06/27/2022",
    "10/01/2022",
    "N/A",
    "NY",
    "Explosion in a backup generator causing extensive damage to the mechanical room and nearby areas.",
    "Empire Tech Tower, Inc.",
    "Closed",
    2500000,
    200000,
    0,
    2700000)

  const Claim1007 := Claim(
    "G",
    "1007",
    "FLOOD",
    "08/15/2020",
    "08/16/2020",
    "08/17/2020",
    "12/20/2020",
    "03/01/2021",
    "NY",
    "Major flooding from a nearby river affecting the lower levels and electrical systems.",
    "Empire Tech Tower, Inc.",
    "Reopened",
    3800000,
    300000,
    500000,
    4600000)

  const Claim1008 := Claim(
    "H",
    "1008",
    "MOLD",
    "02/10/2021",
    "02/12/2021",
    "02/13/2021",
    "04/15/2021",
    "09/05/2021",
    "NY",
    "Extensive mold growth discovered in HVAC system requiring complete system overhaul and remediation.",
    "Empire Tech Tower, Inc.",
    "Reopened",
    1750000,
    150000,
    350000,
    2250000)

  const Claims: seq<Claim> := [Claim1001, Claim1002, Claim1003, Claim1004, Claim1005, Claim1006, Claim1007, Claim1008]

  /** The incurred loss is what was paid, plus expenses, plus what is still
      outstanding. */
  predicate Balanced(c: Claim)
  {
    c.grossIncurredLoss == c.grossPaidLoss + c.grossPaidExpense + c.grossOutstanding
  }

  /** A date written MM/DD/YYYY. */
  predicate IsDate(d: string)
  {
    |d| == 10 && d[2] == '/' && d[5] == '/'
    && forall i :: 0 <= i < 10 && i != 2 && i != 5 ==> IsDigit(d[i])
  }

  /** A closed claim owes nothing and was never reopened; a reopened claim
      still owes something and carries its reopening date. */
  predicate StatusConsistent(c: Claim)
  {
    && (c.status == "Closed" ==> c.grossOutstanding == 0 && c.reopenDate == "N/A")
    && (c.status == "Reopened" ==> c.grossOutstanding > 0 && IsDate(c.reopenDate))
  }

  /** Every claim balances and its status agrees with its amounts and dates;
      every status is "Closed" or "Reopened", so every badge is green or
      yellow. */
  lemma ClaimsConsistent()
    ensures forall i :: 0 <= i < |Claims| ==> Balanced(Claims[i]) && StatusConsistent(Claims[i])
    ensures forall i :: 0 <= i < |Claims| ==> Claims[i].status == "Closed" || Claims[i].status == "Reopened"
  {
  }

  /** The badge colours of the table. */
  lemma ClaimsBadges()
    ensures forall i :: 0 <= i < |Claims| ==>
      StatusColor(Claims[i].status) == if Claims[i].status == "Closed" then Green else Yellow
  {
    ClaimsConsistent();
    assert StatusColor("Closed") == Green by { StatusColorAnyCase("Closed"); }
    assert StatusColor("Reopened") == Yellow by { StatusColorAnyCase("Reopened"); }
  }

  /** The occurrence ids, used as row keys, are pairwise distinct. */
  lemma ClaimKeysDistinct()
    ensures forall i, j :: 0 <= i < j < |Claims| ==> Claims[i].occurrenceId != Claims[j].occurrenceId
  {
  }
}

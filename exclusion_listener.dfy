/**
 * The listener that decides whether a table is left out of reference
 * indexing: when the event is not yet excluded and the extension's
 * `excludeTablesFromReferenceIndexing` setting is not empty, the setting is
 * split on commas, each entry is trimmed, and the event is marked excluded
 * when its table is one of the entries.
 */
module ExclusionListener {
  import opened Strings

  /**
   * TYPO3's IsTableExcludedFromReferenceIndexEvent: the table it asks about
   * and the excluded flag, which listeners can only set.
   */
  class IsTableExcludedEvent {
    const table: string
    var excluded: bool

    constructor (table: string)
      ensures this.table == table && !excluded
    {
      this.table := table;
      excluded := false;
    }

    function IsTableExcluded(): bool
      reads this
    {
      excluded
    }

    method MarkAsExcluded()
      modifies this
      ensures excluded
    {
      excluded := true;
    }
  }

  /** PHP's empty() on a string: the empty string and "0" are empty. */
  predicate PhpEmpty(s: string)
  {
    s == "" || s == "0"
  }

  /** The listener's own decision for a not yet excluded event: a non-empty setting that lists the table. */
  predicate ListsTable(config: string, table: string)
  {
    !PhpEmpty(config) && table in TrimExplode(config)
  }

  /** The excluded flag once the listener has run, given the flag before it. */
  predicate ExcludedAfter(wasExcluded: bool, table: string, config: string)
  {
    wasExcluded || ListsTable(config, table)
  }

  /**
   * The listener's __invoke. The setting is a parameter; `configRead` tells
   * whether the listener got as far as looking it up.
   */
  method Invoke(event: IsTableExcludedEvent, config: string) returns (configRead: bool)
    modifies event
    ensures configRead == !old(event.excluded)
    ensures event.excluded == ExcludedAfter(old(event.excluded), event.table, config)
  {
    if event.IsTableExcluded() {
      return false;
    }
    configRead := true;
    if PhpEmpty(config) {
      return;
    }
    var excludeTables := TrimExplode(config);
    if event.table in excludeTables {
      event.MarkAsExcluded();
    }
  }

  /** An empty setting ("" or "0") leaves the flag as it was. */
  lemma EmptyConfigLeavesEvent(wasExcluded: bool, table: string, config: string)
    requires PhpEmpty(config)
    ensures ExcludedAfter(wasExcluded, table, config) == wasExcluded
  {
  }

  /**
   * A not yet excluded event ends excluded exactly when the setting is not
   * empty and trimming one of its comma-delimited fields gives the table.
   */
  lemma ExcludedIffListed(table: string, config: string)
    ensures ExcludedAfter(false, table, config)
        <==> !PhpEmpty(config) && exists a, b :: IsField(config, a, b) && Trim(config[a..b]) == table
  {
    ListedIffTrimmedField(config, table);
  }

  /**
   * A blank after the comma does not hide an entry: with the setting
   * "pages, tt_content" the table tt_content is excluded.
   */
  lemma BlankAfterCommaIgnored(first: string, table: string)
    requires ',' !in first && ',' !in table
    requires table != [] && !IsTrimmed(table[0]) && !IsTrimmed(table[|table| - 1])
    ensures ExcludedAfter(false, table, first + ", " + table)
  {
    var config := first + ", " + table;
    var padded := [' '] + table;
    assert config == first + "," + padded;
    assert |config| >= 2;
    ExplodeTwo(first, padded);
    TrimUnpadded(table);
    TrimBlankPrefix(' ', table);
    assert Trim(Explode(config)[1]) == table;
    assert TrimExplode(config)[1] == table;
  }

  /** A table named "0" is never excluded by the setting "0", since PHP treats "0" as empty. */
  lemma ZeroSettingExcludesNothing()
    ensures !ExcludedAfter(false, "0", "0")
  {
  }

  /** Exclusion is monotone: whatever the setting, excluded before means excluded after. */
  lemma ExclusionMonotone(wasExcluded: bool, table: string, config: string)
    requires wasExcluded
    ensures ExcludedAfter(wasExcluded, table, config)
  {
  }
}

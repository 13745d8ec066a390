/**
 The decoder of native log envelopes: it accepts one bounded JSON object, keeps bounded
 well-formed prefixes of the selected values, and derives severity and time from them.
 */
module NativeJson {
  import opened Wrappers
  import opened Utf8
  import opened JsonGrammar
  import opened JsonScanner
  import opened JsonParser
  import opened JsonUtf8
  import opened Envelope
  import opened NativeRecord
  import opened RecordMeaning
  import Timestamp
  import R = Reader

  class NativeJsonDecoder {
    const values: seq<array<Byte>>
    var sizes: seq<nat>
    var present: seq<bool>
    var metadataClipped: bool

    ghost predicate Valid()
      reads this, values
    {
      && |values| == |sizes| == |present| == 8
      && (forall i, j :: 0 <= i < j < 8 ==> values[i] != values[j])
      && (forall k :: 0 <= k < 8 ==> values[k].Length == VALUE_BYTES)
    }

    constructor ()
      ensures Valid() && !metadataClipped && fresh(values)
    {
      var a, b, c, d := new Byte[VALUE_BYTES], new Byte[VALUE_BYTES], new Byte[VALUE_BYTES], new Byte[VALUE_BYTES];
      var e, f, g, h := new Byte[VALUE_BYTES], new Byte[VALUE_BYTES], new Byte[VALUE_BYTES], new Byte[VALUE_BYTES];
      values := [a, b, c, d, e, f, g, h];
      sizes, present, metadataClipped := seq(8, _ => 0), seq(8, _ => false), false;
    }

    // The buffers hold what is kept of exactly these values.
    ghost predicate Keeps(fields: Fields)
      reads this, values
      requires Valid()
    {
      && (forall k :: k in fields ==> k < 8)
      && (forall k :: 0 <= k < 8 ==> sizes[k] <= VALUE_BYTES && present[k] == (k in fields))
      && (forall k :: 0 <= k < 8 ==> values[k][..sizes[k]] == Kept(fields, k))
    }

    // Shortens a value that was cut off until it is well formed again.
    method Trim(index: nat, clipped: bool, ghost bytes: seq<Byte>)
      requires Valid() && index < 8 && WellFormed(bytes) && sizes[index] <= VALUE_BYTES
      requires R.Holds(values[index][..], sizes[index], clipped, bytes)
      modifies `sizes, `metadataClipped
      ensures Valid() && sizes == old(sizes)[index := |Clip(bytes)|]
      ensures values[index][..sizes[index]] == Clip(bytes)
      ensures metadataClipped == (old(metadataClipped) || |bytes| > VALUE_BYTES)
    {
      var buffer := values[index];
      if clipped {
        ghost var full := bytes[..VALUE_BYTES];
        var ok := IsValid(buffer[..sizes[index]]);
        while sizes[index] > 0 && !ok
          invariant Valid() && sizes[index] <= VALUE_BYTES && sizes == old(sizes)[index := sizes[index]]
          invariant ok == WellFormed(buffer[..sizes[index]])
          invariant Trimmed(buffer[..sizes[index]]) == Trimmed(full)
          decreases sizes[index]
        {
          assert buffer[..sizes[index]][..sizes[index] - 1] == buffer[..sizes[index] - 1];
          sizes := sizes[index := sizes[index] - 1];
          ok := IsValid(buffer[..sizes[index]]);
        }
        metadataClipped := true;
      }
    }

    // The same of all names but one.
    ghost predicate KeepsOthers(fields: Fields, index: nat)
      reads `sizes, `present, values
      requires |values| == |sizes| == |present| == 8
    {
      && (forall k :: k in fields ==> k < 8)
      && (forall k :: 0 <= k < 8 && k != index ==>
            sizes[k] <= values[k].Length && values[k][..sizes[k]] == Kept(fields, k) && present[k] == (k in fields))
    }

    // A value that was read into its buffer is kept.
    method Keep(index: nat, size: nat, clipped: bool, ghost fields: Fields, ghost bytes: seq<Byte>)
      requires Valid() && index < 8 && index !in fields && KeepsOthers(fields, index)
      requires WellFormed(bytes) && R.Holds(values[index][..], size, clipped, bytes)
      modifies `sizes, `present, `metadataClipped
      ensures Valid() && Keeps(fields[index := bytes])
      ensures metadataClipped == (old(metadataClipped) || |bytes| > VALUE_BYTES)
    {
      present := present[index := true];
      sizes := sizes[index := size];
      Trim(index, clipped, bytes);
    }

    // Reads one value into a buffer: what a string stands for, or the spelling of
    // anything else.
    static method ReadValue(reader: R.Reader, target: array<Byte>)
      returns (ok: bool, size: nat, clipped: bool, ghost bytes: seq<Byte>)
      requires reader.Valid() && WellFormed(reader.text)
      requires reader.position == SkipSpace(reader.text, reader.position)
      modifies reader, target
      ensures reader.Reads(ParseValue(reader.text, old(reader.position), 1), ok)
      ensures ok ==>
        && bytes == ValueBytes(reader.text, old(reader.position), reader.position)
        && WellFormed(bytes) && R.Holds(target[..], size, clipped, bytes)
    {
      var start := reader.position;
      size, clipped, bytes := 0, false, [];
      if reader.position < |reader.text| && reader.text[reader.position] == QUOTE {
        ok, size, clipped := reader.String(target);
        if ok {
          bytes := R.StringAt(reader.text, start).value.meaning;
          StringWellFormed(reader.text, start);
        }
      } else {
        ok := reader.Value(1);
        if ok {
          bytes := reader.text[start..reader.position];
          size, clipped := R.Reader.PutAll(target, 0, false, reader.text[start..reader.position], []);
          assert [] + bytes == bytes;
          ValueWellFormed(reader.text, start, 1);
        }
      }
    }

    // The value of a selected name, whose colon has been read.
    method Value(reader: R.Reader, index: nat, ghost fields: Fields) returns (ok: bool, ghost bytes: seq<Byte>)
      requires Valid() && reader.Valid() && WellFormed(reader.text)
      requires index < 8 && index !in fields && Keeps(fields)
      requires reader.position == SkipSpace(reader.text, reader.position)
      modifies this, values, reader
      ensures Valid() && reader.Reads(ParseValue(reader.text, old(reader.position), 1), ok)
      ensures ok ==> bytes == ValueBytes(reader.text, old(reader.position), reader.position)
      ensures ok ==> Keeps(fields[index := bytes])
      ensures ok ==> metadataClipped == (old(metadataClipped) || |bytes| > VALUE_BYTES)
    {
      var size, clipped;
      assert KeepsOthers(fields, index);
      ok, size, clipped, bytes := ReadValue(reader, values[index]);
      assert KeepsOthers(fields, index);
      if ok {
        Keep(index, size, clipped, fields, bytes);
      }
    }

    // The buffers and the clipping flag agree with the values selected so far.
    ghost predicate Current(fields: Fields)
      reads this, values
    {
      Valid() && Keeps(fields) && metadataClipped == Overflows(fields)
    }

    // The name of a member with its colon, as far as it matters which key it is.
    static method Name(reader: R.Reader, keys: seq<seq<Byte>>) returns (ok: bool, index: Option<nat>)
      requires reader.Valid() && ShortKeys(keys)
      modifies reader`position
      ensures reader.Valid() && ok == TagEnd(reader.text, old(reader.position), true).Some?
      ensures ok ==> reader.position == TagEnd(reader.text, old(reader.position), true).value
      ensures ok ==> index == Find(keys, NameAt(reader.text, old(reader.position)))
    {
      var key := new Byte[KEY_BYTES];
      var size, clipped;
      index := None;
      ok, size, clipped := reader.String(key);
      if ok {
        ghost var name := R.StringAt(reader.text, old(reader.position)).value.meaning;
        assert TagEnd(reader.text, old(reader.position), true).Some? ==>
            name == NameAt(reader.text, old(reader.position));
        assert !clipped ==> key[..size] == name;
        assert clipped ==> |name| > 20 && Find(keys, name) == None;
        index := if clipped then None else Find(keys, key[..size]);
        ok := reader.Eat(COLON);
      }
    }

    // One member: ScanMember over the buffers.
    method Member(reader: R.Reader, keys: seq<seq<Byte>>, ghost fields: Fields) returns (ok: bool, ghost r: Scan)
      requires Current(fields) && reader.Valid() && WellFormed(reader.text) && !reader.limited && ShortKeys(keys)
      modifies this, values, reader
      ensures Valid() && reader.Valid() && r == ScanMember(reader.text, old(reader.position), fields, keys)
      ensures ok == r.Done? && reader.limited == r.Limit?
      ensures ok ==> reader.position == r.next && Current(r.fields)
    {
      r := ScanMember(reader.text, reader.position, fields, keys);
      var index;
      ok, index := Name(reader, keys);
      if !ok {
        assert r == Scan.Invalid;
        return;
      }
      ghost var colon := reader.position;
      ghost var outcome := ParseValue(reader.text, colon, 1);
      reader.Whitespace();
      ValueSkip(reader.text, colon);
      assert !reader.limited;
      if index == None {
        ok := reader.Value(1);
        assert reader.limited == outcome.TooDeep?;
      } else if present[index.value] {
        ok := false;
      } else {
        ghost var bytes;
        ok, bytes := Value(reader, index.value, fields);
        assert reader.limited == outcome.TooDeep?;
        OverflowsAfter(fields, index.value, bytes);
      }
    }

    // The members of the object, whose opening brace has been read.
    method Members(reader: R.Reader, keys: seq<seq<Byte>>) returns (ok: bool, ghost r: Scan)
      requires Current(map[]) && reader.Valid() && WellFormed(reader.text) && !reader.limited && ShortKeys(keys)
      modifies this, values, reader
      ensures Valid() && reader.Valid() && r == ScanMembers(reader.text, old(reader.position), map[], keys)
      ensures ok == r.Done? && reader.limited == r.Limit?
      ensures ok ==> reader.position == r.next && Current(r.fields)
    {
      r := ScanMembers(reader.text, reader.position, map[], keys);
      ghost var fields: Fields := map[];
      var last := false;
      while !last
        invariant Current(fields) && reader.Valid() && !reader.limited
        invariant r == if last then Done(fields, reader.position)
                       else ScanMembers(reader.text, reader.position, fields, keys)
        decreases !last, |reader.text| - reader.position
      {
        ghost var one;
        ok, one := Member(reader, keys, fields);
        if !ok {
          return;
        }
        fields := one.fields;
        ok, last := reader.Separator(true);
        if !ok {
          return;
        }
      }
      ok := true;
    }

    // The object, whose opening brace has been read.
    method Object(reader: R.Reader, keys: seq<seq<Byte>>) returns (ok: bool, ghost r: Scan)
      requires Current(map[]) && reader.Valid() && WellFormed(reader.text) && !reader.limited && ShortKeys(keys)
      modifies this, values, reader
      ensures Valid() && reader.Valid() && r == ScanObject(reader.text, old(reader.position), keys)
      ensures ok == r.Done? && reader.limited == r.Limit?
      ensures ok ==> reader.position == r.next && Current(r.fields)
    {
      ghost var start := reader.position;
      ok := reader.Eat(Closer(true));
      if ok {
        r := Done(map[], reader.position);
      } else {
        MembersSkip(reader.text, start, map[], keys);
        assert reader.position == SkipSpace(reader.text, start);
        ok, r := Members(reader, keys);
      }
    }

    // The whole envelope: the object between blanks.
    method Envelope(reader: R.Reader, keys: seq<seq<Byte>>) returns (ok: bool, ghost r: Scan)
      requires Current(map[]) && reader.Valid() && WellFormed(reader.text) && !reader.limited && ShortKeys(keys)
      requires reader.position == 0
      modifies this, values, reader
      ensures Valid() && reader.Valid() && r == ScanEnvelope(reader.text, keys)
      ensures ok == r.Done? && reader.limited == r.Limit?
      ensures ok ==> Current(r.fields)
    {
      r := ScanEnvelope(reader.text, keys);
      ok := reader.Eat(Opener(true));
      if ok {
        ghost var scanned;
        ok, scanned := Object(reader, keys);
        if ok {
          reader.Whitespace();
          ok := reader.position == |reader.text|;
        }
      }
    }

    // What the kept values say; the payload is among them.
    method Derive(envelope: seq<Byte>, schema: Schema, ghost fields: Fields) returns (record: Record)
      requires Current(fields)
      ensures record == Publication(envelope, schema, fields)
    {
      var pairs := [];
      for index := 0 to 8
        invariant pairs == PairsUpTo(Keys(schema), fields, index)
      {
        if present[index] {
          pairs := pairs + [(Keys(schema)[index], values[index][..sizes[index]])];
        }
      }
      var level, time := values[4][..sizes[4]], values[5][..sizes[5]];
      var stamp;
      if schema.Apple? {
        stamp := Timestamp.NativeTimestamp(time);
      } else {
        var micros := Integer(time);
        stamp := if micros.Some? && 0 <= micros.value <= Timestamp.MAX_INT64 / 1000 then Some(micros.value * 1000)
                 else None;
      }
      record := Record(envelope, Level(schema, level), stamp, pairs);
    }

    // decode: the outcome is the judgement on the whole envelope, and an accepted one is
    // published with everything derived from its kept values.
    method Decode(envelope: seq<Byte>, schema: Schema) returns (result: Result)
      requires Valid()
      modifies this, values
      ensures Valid()
      ensures result == Decoding(envelope, schema) && Answers(envelope, schema, result)
      ensures result.Published? ==> metadataClipped == Overflows(Judge(envelope, schema).fields)
      ensures result.Published? ==> metadataClipped == Overlong(envelope, schema)
    {
      DecodingAnswers(envelope, schema);
      OverlongExactly(envelope, schema);
      metadataClipped := false;
      if |envelope| > BATCH_BYTES {
        return Result.Limit;
      }
      var ok := IsValid(envelope);
      if !ok {
        return Result.Invalid;
      }
      sizes, present := seq(8, _ => 0), seq(8, _ => false);
      var reader := new R.Reader(envelope);
      ghost var r;
      ok, r := Envelope(reader, Keys(schema));
      if !ok {
        return if reader.limited then Result.Limit else Result.Invalid;
      }
      if !present[PAYLOAD] {
        return Result.Invalid;
      }
      var record := Derive(envelope, schema, r.fields);
      result := Published(record);
    }
  }

  // Nor do blanks before a value.
  lemma ValueSkip(s: seq<Byte>, i: nat)
    requires i <= |s|
    ensures SkipSpace(s, SkipSpace(s, i)) == SkipSpace(s, i)
    ensures ParseValue(s, SkipSpace(s, i), 1) == ParseValue(s, i, 1)
  {
    R.SkipTwice(s, i);
  }

  // Blanks before the members do not matter.
  lemma MembersSkip(s: seq<Byte>, i: nat, fields: Fields, keys: seq<seq<Byte>>)
    requires i <= |s|
    ensures ScanMembers(s, SkipSpace(s, i), fields, keys) == ScanMembers(s, i, fields, keys)
  {
    R.SkipTwice(s, i);
    assert ScanMember(s, SkipSpace(s, i), fields, keys) == ScanMember(s, i, fields, keys);
  }
}

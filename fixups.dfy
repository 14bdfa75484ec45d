// Manual CPE overrides for product streams whose CPEs cannot be matched through their variants: a constant
// table from stream name to CPEs, and the lookup that reads it as a set.

module Fixups {

  /** `supported_stream_cpes`, entry for entry. */
  const SupportedStreamCpes: map<string, seq<string>> :=
    map[
      "certificate_system_10.2.z" := [
        "cpe:/a:redhat:certificate_system_eus:10.2::el8",
        "cpe:/a:redhat:certificate_system:10.2::el8"
      ],
      "certificate_system_10.4.z" := ["cpe:/a:redhat:certificate_system:10.4::el8"],
      "convert2rhel-7" := ["cpe:/a:redhat:convert2rhel::el7"],
      "convert2rhel-8" := ["cpe:/a:redhat:convert2rhel::el8"],
      "directory_server_11.5" := ["cpe:/a:redhat:directory_server:11.5::el8"],
      "directory_server_11.6" := ["cpe:/a:redhat:directory_server:11.6::el8"],
      "directory_server_12.0" := [
        "cpe:/a:redhat:directory_server_eus:12::el9",
        "cpe:/a:redhat:directory_server:12::el9"
      ],
      "directory_server_12.1" := ["cpe:/a:redhat:directory_server:12.1::el9"],
      "dts-11.1.z" := ["cpe:/a:redhat:rhel_software_collections:3::el7"],
      "dts-12.1.z" := ["cpe:/a:redhat:rhel_software_collections:3::el7"],
      "rhes-3.5" := [
        "cpe:/a:redhat:storage:3.5:nfs:el7",
        "cpe:/a:redhat:storage:3.5:na:el7",
        "cpe:/a:redhat:storage:3.5:samba:el7",
        "cpe:/a:redhat:storage:3.5:server:el7",
        "cpe:/a:redhat:storage:3.5:wa:el7",
        "cpe:/a:redhat:storage:3.5:nfs:el8",
        "cpe:/a:redhat:storage:3.5:na:el8",
        "cpe:/a:redhat:storage:3.5:samba:el8",
        "cpe:/a:redhat:storage:3.5:server:el8",
        "cpe:/a:redhat:storage:3.5:wa:el8"
      ],
      "openshift-enterprise-3.11.z" := ["cpe:/a:redhat:openshift:3.11::el7"],
      "openshift-4.12.z" := [
        "cpe:/a:redhat:openshift:4.12::el8",
        "cpe:/a:redhat:openshift:4.12::el9",
        "cpe:/a:redhat:openshift_ironic:4.12::el9"
      ],
      "openstack-13-optools" := ["cpe:/a:redhat:openstack-optools:13::el7"],
      "quay-3.6" := ["cpe:/a:redhat:quay:3::el8"],
      "quay-3.7" := ["cpe:/a:redhat:quay:3::el8"],
      "quay-3.8" := ["cpe:/a:redhat:quay:3::el8"],
      "rhel-8.8.0" := [
        "cpe:/a:redhat:enterprise_linux:8::appstream",
        "cpe:/a:redhat:enterprise_linux:8::crb",
        "cpe:/a:redhat:enterprise_linux:8::highavailability",
        "cpe:/a:redhat:enterprise_linux:8::nfv",
        "cpe:/a:redhat:enterprise_linux:8::realtime",
        "cpe:/a:redhat:enterprise_linux:8::resilientstorage",
        "cpe:/a:redhat:enterprise_linux:8::sap",
        "cpe:/a:redhat:enterprise_linux:8::sap_hana",
        "cpe:/a:redhat:enterprise_linux:8::supplementary",
        "cpe:/o:redhat:enterprise_linux:8::baseos",
        "cpe:/o:redhat:enterprise_linux:8::fastdatapath",
        "cpe:/o:redhat:enterprise_linux:8::hypervisor"
      ],
      "rhel-9.2.0" := [
        "cpe:/a:redhat:enterprise_linux:9::appstream",
        "cpe:/a:redhat:enterprise_linux:9::crb",
        "cpe:/a:redhat:enterprise_linux:9::highavailability",
        "cpe:/a:redhat:enterprise_linux:9::nfv",
        "cpe:/a:redhat:enterprise_linux:9::realtime",
        "cpe:/a:redhat:enterprise_linux:9::resilientstorage",
        "cpe:/a:redhat:enterprise_linux:9::sap",
        "cpe:/a:redhat:enterprise_linux:9::sap_hana",
        "cpe:/a:redhat:enterprise_linux:9::supplementary",
        "cpe:/o:redhat:enterprise_linux:9::baseos",
        "cpe:/o:redhat:enterprise_linux:9::fastdatapath",
        "cpe:/o:redhat:enterprise_linux:9::hypervisor"
      ],
      "rhscl-3.8.z" := [
        "cpe:/a:redhat:rhel_software_collections:3::el6",
        "cpe:/a:redhat:rhel_software_collections:3::el7"
      ]
    ]

  /** The distinct elements of a list: `set(xs)`. */
  function AsSet(xs: seq<string>): (r: set<string>)
    ensures forall x :: x in r <==> x in xs
  {
    set x | x in xs
  }

  /** `cpe_lookup`: the CPEs listed for the stream, as a set; none for a stream the table does not list. */
  function CpeLookup(streamName: string): (cpes: set<string>)
    ensures streamName !in SupportedStreamCpes ==> cpes == {}
    ensures streamName in SupportedStreamCpes ==> forall c :: c in cpes <==> c in SupportedStreamCpes[streamName]
  {
    AsSet(if streamName in SupportedStreamCpes then SupportedStreamCpes[streamName] else [])
  }

  /** A set made of a list never has more elements than the list: duplicates collapse. */
  lemma {:induction false} AsSetBound(xs: seq<string>)
    ensures |AsSet(xs)| <= |xs|
    decreases |xs|
  {
    if xs != [] {
      var front := xs[..|xs| - 1];
      AsSetBound(front);
      assert AsSet(xs) == AsSet(front) + {xs[|xs| - 1]};
    }
  }

  /** A list without repeated elements has as many distinct elements as entries. */
  lemma {:induction false} AsSetDistinct(xs: seq<string>)
    requires forall i, j :: 0 <= i < j < |xs| ==> xs[i] != xs[j]
    ensures |AsSet(xs)| == |xs|
    decreases |xs|
  {
    if xs != [] {
      var front := xs[..|xs| - 1];
      AsSetDistinct(front);
      assert xs[|xs| - 1] !in front;
      assert AsSet(xs) == AsSet(front) + {xs[|xs| - 1]};
    }
  }

  /** A lookup returns at most as many CPEs as the stream's entry lists. */
  lemma LookupBound(streamName: string)
    ensures streamName in SupportedStreamCpes ==> |CpeLookup(streamName)| <= |SupportedStreamCpes[streamName]|
  {
    if streamName in SupportedStreamCpes {
      AsSetBound(SupportedStreamCpes[streamName]);
    }
  }

  /** The two RHEL compose streams each have twelve distinct CPEs. */
  lemma RhelComposeStreams()
    ensures |CpeLookup("rhel-8.8.0")| == 12 && |CpeLookup("rhel-9.2.0")| == 12
  {
    AsSetDistinct(SupportedStreamCpes["rhel-8.8.0"]);
    AsSetDistinct(SupportedStreamCpes["rhel-9.2.0"]);
  }
}
